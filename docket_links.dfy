/*
 * The decisions main.js's document-ready handler takes about the docket block:
 * which court the court block names (lines 40 and 58), which TAMES search page
 * a click opens (lines 42-49), and whether a Court of Criminal Appeals docket
 * gets a search click at all (lines 74-82). Styling and navigation themselves
 * are browser effects and are not modelled; the handler's outcome is the
 * DocketLink value below.
 */
module DocketLinks {
  import opened Strings
  import opened CaseNumbers

  datatype Option<T> = None | Some(value: T)

  const SupremeCourt: string := "Supreme Court of Texas"
  const CourtOfAppeals: string := "Court of Appeals of Texas"
  const CourtOfCivilAppeals: string := "Court of Civil Appeals of Texas"
  const CourtOfCriminalAppeals: string := "Court of Criminal Appeals of Texas"

  /** The courts whose cases TAMES searches, the Court of Criminal Appeals, and every other court. */
  datatype CourtKind = TamesCourt | CriminalAppealsCourt | OtherCourt

  /** `/(?:Supreme Court|Court of (?:Civil )?Appeals) of Texas/` matches somewhere in the text. */
  predicate NamesTamesCourt(text: string) {
    Contains(text, SupremeCourt) || Contains(text, CourtOfAppeals) || Contains(text, CourtOfCivilAppeals)
  }

  /** The if / else-if of lines 40 and 58: the TAMES courts are tested first. */
  function ClassifyCourt(courtText: string): (k: CourtKind)
  {
    if NamesTamesCourt(courtText) then TamesCourt
    else if Contains(courtText, CourtOfCriminalAppeals) then CriminalAppealsCourt
    else OtherCourt
  }

  /**
   * The Court of Criminal Appeals' name does not match the TAMES pattern, so a
   * court block naming only that court reaches the second branch.
   */
  lemma CriminalCourtNameIsNotTames()
    ensures !NamesTamesCourt(CourtOfCriminalAppeals)
    ensures ClassifyCourt(CourtOfCriminalAppeals) == CriminalAppealsCourt
  {
    CriminalLacksS();
    CriminalLacksV();
    CriminalNameLacks(SupremeCourt, 'S');
    CriminalNameLacks(CourtOfCivilAppeals, 'v');
    CriminalNameLacksCourtOfAppeals();
    ContainsItself(CourtOfCriminalAppeals);
  }

  /** The criminal court's name has no capital S and no lower-case v. */
  lemma CriminalLacksS()
    ensures 'S' in SupremeCourt && 'S' !in CourtOfCriminalAppeals
  {
    assert SupremeCourt[0] == 'S';
  }

  lemma CriminalLacksV()
    ensures 'v' in CourtOfCivilAppeals && 'v' !in CourtOfCriminalAppeals
  {
    assert CourtOfCivilAppeals[11] == 'v';
  }

  /** Every name matches itself. */
  lemma ContainsItself(t: string)
    ensures Contains(t, t)
  {
    assert OccursAt(t, t, 0);
  }

  /** A name with a character the criminal court's name lacks cannot occur in it. */
  lemma CriminalNameLacks(name: string, c: char)
    requires c in name && c !in CourtOfCriminalAppeals
    ensures !Contains(CourtOfCriminalAppeals, name)
  {
    if Contains(CourtOfCriminalAppeals, name) {
      ContainsChars(CourtOfCriminalAppeals, name, c);
    }
  }

  /** "Court of Appeals of Texas" would have to line its 'A' up with the one in "Criminal Appeals". */
  lemma CriminalNameLacksCourtOfAppeals()
    ensures !Contains(CourtOfCriminalAppeals, CourtOfAppeals)
  {
    var t, p := CourtOfCriminalAppeals, CourtOfAppeals;
    OnlyCapitalA();
    forall i | 0 <= i <= |t| - |p| ensures !OccursAt(t, p, i) {
    }
  }

  /** The criminal court's name has a capital A only at index 18; lining "Court of Appeals" up with it puts its 'o' against an 'r'. */
  lemma OnlyCapitalA()
    ensures forall j :: 0 <= j < |CourtOfCriminalAppeals| && CourtOfCriminalAppeals[j] == 'A' ==> j == 18
    ensures CourtOfCriminalAppeals[10] == 'r' && CourtOfAppeals[1] == 'o' && CourtOfAppeals[9] == 'A'
  {
  }

  /** Every court's own name is classified as that court. */
  lemma CourtNamesClassified()
    ensures ClassifyCourt(SupremeCourt) == TamesCourt
    ensures ClassifyCourt(CourtOfAppeals) == TamesCourt
    ensures ClassifyCourt(CourtOfCivilAppeals) == TamesCourt
    ensures ClassifyCourt(CourtOfCriminalAppeals) == CriminalAppealsCourt
  {
    assert OccursAt(SupremeCourt, SupremeCourt, 0);
    assert OccursAt(CourtOfAppeals, CourtOfAppeals, 0);
    assert OccursAt(CourtOfCivilAppeals, CourtOfCivilAppeals, 0);
    CriminalCourtNameIsNotTames();
  }

  /**
   * Once a TAMES court is named, no surrounding text changes the outcome, not
   * even the Court of Criminal Appeals' name: the first branch is tested first.
   */
  lemma TamesNameDecides(before: string, name: string, after: string)
    requires name == SupremeCourt || name == CourtOfAppeals || name == CourtOfCivilAppeals
    ensures ClassifyCourt(before + name + after) == TamesCourt
  {
    assert OccursAt(name, name, 0);
    ContainsWithin(before, name, after, name);
  }

  // ---------------------------------------------------------------------------
  // The TAMES search path (lines 42-49)

  const TamesSite: string := "http://www.search.txcourts.gov/"
  const CasePathPrefix: string := "Case.aspx?cn="
  const FallbackPath: string := "CaseSearch.aspx?coa=cossup"

  /**
   * The page a click opens: the case's own page when the number is non-empty,
   * else the search form. The case number can be read back from the path
   * exactly when it is non-empty, and then it comes back unchanged.
   */
  function SearchPath(caseNo: string): (path: string)
    ensures CaseNumberInPath(path) == if caseNo == [] then None else Some(caseNo)
  {
    if caseNo != "" then
      var path := CasePathPrefix + caseNo;
      assert path[..|CasePathPrefix|] == CasePathPrefix;
      assert path[|CasePathPrefix|..] == caseNo;
      path
    else
      FallbackIsNotCasePath();
      FallbackPath
  }

  /** Reads the case number back out of a search path. */
  function CaseNumberInPath(path: string): (r: Option<string>)
    ensures r.Some? ==> r.value != [] && path == CasePathPrefix + r.value
  {
    if |path| > |CasePathPrefix| && path[..|CasePathPrefix|] == CasePathPrefix
    then Some(path[|CasePathPrefix|..])
    else None
  }

  /** The fallback is not a case page. */
  lemma FallbackIsNotCasePath()
    ensures !(|FallbackPath| >= |CasePathPrefix| && FallbackPath[..|CasePathPrefix|] == CasePathPrefix)
  {
    assert FallbackPath[4] != CasePathPrefix[4];
  }

  /** Different case numbers lead to different pages. */
  lemma SearchPathInjective(a: string, b: string)
    requires SearchPath(a) == SearchPath(b)
    ensures a == b
  {
  }

  // ---------------------------------------------------------------------------
  // What the handler does with the docket block

  /**
   * No link; a click that opens a TAMES page; or a click that fills the Court of
   * Criminal Appeals search form with the case number and submits it.
   */
  datatype DocketLink = NoLink | OpenTamesSearch(url: string) | SubmitCcaSearch(caseNumber: string)

  function DocketLinkFor(courtText: string, docketText: string): DocketLink
  {
    match ClassifyCourt(courtText)
    case TamesCourt => OpenTamesSearch(TamesSite + SearchPath(NormalizedCaseNumber(docketText)))
    case CriminalAppealsCourt =>
      var caseNo := NormalizedCaseNumber(docketText);
      if caseNo != "" then SubmitCcaSearch(caseNo) else NoLink
    case OtherCourt => NoLink
  }

  /**
   * A TAMES court always gets a link, to its case page exactly when the docket
   * text holds a digit; a Court of Criminal Appeals docket gets one only when
   * it does, and the form then receives a non-empty, en-dash-free number; any
   * other court gets none.
   */
  lemma DocketLinkCases(courtText: string, docketText: string)
    ensures var link := DocketLinkFor(courtText, docketText);
      && (link.OpenTamesSearch? <==> NamesTamesCourt(courtText))
      && (link.SubmitCcaSearch? <==> ClassifyCourt(courtText) == CriminalAppealsCourt && HasDigit(docketText))
      && (link.NoLink? <==> ClassifyCourt(courtText) == OtherCourt
                            || (ClassifyCourt(courtText) == CriminalAppealsCourt && !HasDigit(docketText)))
      && (link.OpenTamesSearch? && HasDigit(docketText) ==>
            link.url == TamesSite + CasePathPrefix + NormalizedCaseNumber(docketText))
      && (link.OpenTamesSearch? && !HasDigit(docketText) ==> link.url == TamesSite + FallbackPath)
      && (link.SubmitCcaSearch? ==>
            link.caseNumber == NormalizedCaseNumber(docketText) && link.caseNumber != [] && EnDash !in link.caseNumber)
  {
    EmptyExactlyWithoutDigit(docketText);
    NoEnDashInResult(docketText);
    var caseNo := NormalizedCaseNumber(docketText);
    TamesUrl(caseNo);
  }

  /** The URL a TAMES click opens, written out. */
  lemma TamesUrl(caseNo: string)
    ensures caseNo != [] ==> TamesSite + SearchPath(caseNo) == TamesSite + CasePathPrefix + caseNo
    ensures caseNo == [] ==> TamesSite + SearchPath(caseNo) == TamesSite + FallbackPath
  {
    if caseNo != [] {
      assert TamesSite + (CasePathPrefix + caseNo) == TamesSite + CasePathPrefix + caseNo;
    }
  }
}
