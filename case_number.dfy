/*
 * The Texas case-number normaliser, RealCaseNumberFromString in main.js.
 *
 * The text of a docket block ("No. 12-34-05678-CR", say) is cleaned in two
 * expression steps (en-dashes become hyphens; the leading run of non-digits and
 * the trailing run of characters outside {C, R, V, 0-9} are dropped), and a
 * number that then ends in CR or CV has its first three hyphen-separated fields
 * forced to widths 2, 2 and 5 with JavaScript's `("00" + p).slice(-2)` idiom.
 */
module CaseNumbers {
  import opened Strings

  const EnDash: char := '–'
  const Hyphen: char := '-'

  /** The string JavaScript makes of `undefined`, which is what a missing field reads as. */
  const Undefined: string := "undefined"

  /** The characters the trailing strip keeps: `[CRV\d]`. */
  predicate IsTailChar(c: char) {
    IsDigit(c) || c == 'C' || c == 'R' || c == 'V'
  }

  /** `/C[RV]$/`: the string ends in CR or CV. */
  predicate EndsWithCrCv(s: string) {
    |s| >= 2 && s[|s| - 2] == 'C' && (s[|s| - 1] == 'R' || s[|s| - 1] == 'V')
  }

  // ---------------------------------------------------------------------------
  // Step 1: `.replace(/–/g, "-")`

  function ReplaceEnDashes(s: string): (r: string)
    ensures |r| == |s|
    ensures forall i :: 0 <= i < |s| ==> r[i] == (if s[i] == EnDash then Hyphen else s[i])
    ensures EnDash !in r
  {
    if s == [] then [] else [if s[0] == EnDash then Hyphen else s[0]] + ReplaceEnDashes(s[1..])
  }

  /** The replacement neither creates nor removes digits (an en-dash is not one). */
  lemma ReplaceKeepsDigits(s: string)
    ensures HasDigit(ReplaceEnDashes(s)) <==> HasDigit(s)
  {
    var r := ReplaceEnDashes(s);
    if HasDigit(s) {
      var i :| 0 <= i < |s| && IsDigit(s[i]);
      assert IsDigit(r[i]);
    }
    if HasDigit(r) {
      var i :| 0 <= i < |r| && IsDigit(r[i]);
      assert IsDigit(s[i]);
    }
  }

  /** The character-by-character description determines the replacement. */
  lemma ReplaceEnDashesPointwise(s: string, r: string)
    requires |r| == |s|
    requires forall i :: 0 <= i < |s| ==> r[i] == (if s[i] == EnDash then Hyphen else s[i])
    ensures ReplaceEnDashes(s) == r
  {
  }

  lemma ReplaceWithoutEnDash(s: string)
    requires EnDash !in s
    ensures ReplaceEnDashes(s) == s
  {
  }

  // ---------------------------------------------------------------------------
  // Step 2: `.replace(/^[^\d]+|[^CRV\d]+$/g, "")`

  /**
   * s[k..e] is what the strip keeps of s: everything before k is a non-digit and
   * s[k] is the first digit (k == |s| when there is none); everything from e on
   * lies outside {C, R, V, 0-9} and s[e-1] does not.
   */
  ghost predicate StrippedAt(s: string, k: int, e: int) {
    0 <= k <= e <= |s|
    && (forall j :: 0 <= j < k ==> !IsDigit(s[j]))
    && (k < |s| ==> IsDigit(s[k]))
    && (forall j :: e <= j < |s| ==> !IsTailChar(s[j]))
    && (k < e ==> IsTailChar(s[e - 1]))
  }

  /** The bounds of the strip are determined by the string. */
  lemma StrippedAtUnique(s: string, k: int, e: int, k': int, e': int)
    requires StrippedAt(s, k, e) && StrippedAt(s, k', e')
    ensures k == k' && e == e'
  {
    if k < |s| {
      assert IsTailChar(s[k]);
    }
    if k' < |s| {
      assert IsTailChar(s[k']);
    }
  }

  /** The scan for the first digit: the end of `^[^\d]+`. */
  function FirstDigit(s: string): (k: nat)
    ensures k <= |s|
    ensures forall j :: 0 <= j < k ==> !IsDigit(s[j])
    ensures k < |s| ==> IsDigit(s[k])
  {
    if s == [] || IsDigit(s[0]) then 0 else 1 + FirstDigit(s[1..])
  }

  /** The scan for the last kept character: the start of `[^CRV\d]+$`. */
  function TailEnd(s: string): (e: nat)
    ensures e <= |s|
    ensures forall j :: e <= j < |s| ==> !IsTailChar(s[j])
    ensures e > 0 ==> IsTailChar(s[e - 1])
  {
    if s == [] || IsTailChar(s[|s| - 1]) then |s| else TailEnd(s[..|s| - 1])
  }

  /**
   * Both alternatives of the global replace. With no digit at all the first
   * alternative already matches the whole string, so nothing is left.
   */
  function StripEdges(s: string): (r: string)
    ensures exists k, e :: StrippedAt(s, k, e) && r == s[k..e]
    ensures r == [] <==> !HasDigit(s)
    ensures r != [] ==> IsDigit(r[0]) && IsTailChar(r[|r| - 1])
  {
    var k := FirstDigit(s);
    if k == |s| then
      assert StrippedAt(s, k, k);
      []
    else
      var e := TailEnd(s);
      assert IsTailChar(s[k]);
      assert StrippedAt(s, k, e);
      assert IsDigit(s[..e][k]);
      s[k..e]
  }

  /** A string that already starts with a digit and ends in a kept character is left alone. */
  lemma StripClean(t: string)
    requires t == [] || (IsDigit(t[0]) && IsTailChar(t[|t| - 1]))
    ensures StripEdges(t) == t
  {
    if t != [] {
      assert FirstDigit(t) == 0;
      assert TailEnd(t) == |t|;
    }
  }

  /** Stripping twice is stripping once. */
  lemma StripIdempotent(s: string)
    ensures StripEdges(StripEdges(s)) == StripEdges(s)
  {
    StripClean(StripEdges(s));
  }

  /** Steps 1 and 2: the number as the page shows it, before any padding. */
  function CleanedCaseNumber(s: string): string
  {
    StripEdges(ReplaceEnDashes(s))
  }

  // ---------------------------------------------------------------------------
  // Step 3: the padding of a CR or CV number

  /** r is p forced to width w: zeros in front of a shorter p, the last w characters of a longer one. */
  ghost predicate PaddedTo(r: string, p: string, w: nat) {
    |r| == w
    && (|p| < w ==> r == Zeros(w - |p|) + p)
    && (|p| >= w ==> r == p[|p| - w..])
  }

  /** `("0…0" + p).slice(-w)` with w zeros. */
  function PadField(p: string, w: nat): (r: string)
    requires w > 0
    ensures PaddedTo(r, p, w)
    ensures Zeros(w) + p == (Zeros(w) + p)[..|p|] + r
    ensures forall j :: 0 <= j < |r| ==> r[j] == '0' || r[j] in p
  {
    var z := Zeros(w) + p;
    var r := SliceLast(z, w);
    assert r == z[|p|..];
    assert |p| < w ==> r == Zeros(w - |p|) + p;
    assert |p| >= w ==> r == p[|p| - w..];
    assert forall j :: 0 <= j < |r| ==> r[j] == z[|p| + j];
    r
  }

  /** `caseNoParts[i]`, with JavaScript's reading of a missing element. */
  function Field(fs: seq<string>, i: nat): string
  {
    if i < |fs| then fs[i] else Undefined
  }

  /** `caseNoParts[i] = v`: an assignment one past the end extends the array. */
  function Store(fs: seq<string>, i: nat, v: string): (fs': seq<string>)
    requires i <= |fs|
    ensures |fs'| == if i < |fs| then |fs| else |fs| + 1
    ensures fs'[i] == v
    ensures forall j :: 0 <= j < |fs| && j != i ==> fs'[j] == fs[j]
  {
    if i < |fs| then fs[i := v] else fs + [v]
  }

  /** The fields after lines 28-30 of main.js have run. */
  function PadFields(fs: seq<string>): seq<string>
  {
    [PadField(Field(fs, 0), 2), PadField(Field(fs, 1), 2), PadField(Field(fs, 2), 5)]
      + (if |fs| > 3 then fs[3..] else [])
  }

  /** The three element assignments of lines 28-30 produce PadFields, whatever the number of fields. */
  lemma PaddingInPlace(fs: seq<string>)
    requires |fs| >= 1
    ensures
      var fs1 := Store(fs, 0, PadField(Field(fs, 0), 2));
      var fs2 := Store(fs1, 1, PadField(Field(fs1, 1), 2));
      Store(fs2, 2, PadField(Field(fs2, 2), 5)) == PadFields(fs)
  {
    var fs1 := Store(fs, 0, PadField(Field(fs, 0), 2));
    assert Field(fs1, 1) == Field(fs, 1);
    var fs2 := Store(fs1, 1, PadField(Field(fs1, 1), 2));
    assert Field(fs2, 2) == Field(fs, 2);
    var fs3 := Store(fs2, 2, PadField(Field(fs2, 2), 5));
    var ps := PadFields(fs);
    assert |fs3| == |ps|;
    forall i | 0 <= i < |ps| ensures fs3[i] == ps[i] {
      if i >= 3 {
        assert fs3[i] == fs[i];
      }
    }
  }

  /** What RealCaseNumberFromString returns for the text s. */
  function NormalizedCaseNumber(s: string): string
  {
    PaddedCaseNumber(CleanedCaseNumber(s))
  }

  /** Step 3 alone, applied to a cleaned number t. */
  function PaddedCaseNumber(t: string): string
  {
    if EndsWithCrCv(t) then Join(PadFields(Split(t, Hyphen)), Hyphen) else t
  }

  /**
   * RealCaseNumberFromString as main.js writes it: the case number is rebound
   * step by step, and the array of fields is overwritten (and extended where
   * fields are missing) one element at a time.
   */
  method RealCaseNumberFromString(text: string) returns (caseNo: string)
    ensures caseNo == NormalizedCaseNumber(text)
    ensures EnDash !in caseNo
    ensures caseNo == [] <==> !HasDigit(text)
  {
    caseNo := StripEdges(ReplaceEnDashes(text));
    if EndsWithCrCv(caseNo) {
      var caseNoParts := Split(caseNo, Hyphen);
      ghost var fields := caseNoParts;
      caseNoParts := Store(caseNoParts, 0, PadField(Field(caseNoParts, 0), 2));
      caseNoParts := Store(caseNoParts, 1, PadField(Field(caseNoParts, 1), 2));
      caseNoParts := Store(caseNoParts, 2, PadField(Field(caseNoParts, 2), 5));
      PaddingInPlace(fields);
      caseNo := Join(caseNoParts, Hyphen);
    }
    NoEnDashInResult(text);
    EmptyExactlyWithoutDigit(text);
  }

  // ---------------------------------------------------------------------------
  // Properties of the normalised number

  /** Every en-dash has become a hyphen before anything else happens, so none survives. */
  lemma NoEnDashInResult(s: string)
    ensures EnDash !in NormalizedCaseNumber(s)
  {
    var t := CleanedCaseNumber(s);
    CleanedAvoids(s, EnDash);
    if EndsWithCrCv(t) {
      var fs := Split(t, Hyphen);
      PadFieldsAvoid(fs, EnDash);
      JoinAvoids(PadFields(fs), Hyphen, EnDash);
    }
  }

  /** A character the text lacks is missing from the cleaned number too. */
  lemma CleanedAvoids(s: string, c: char)
    requires c !in ReplaceEnDashes(s)
    ensures c !in CleanedCaseNumber(s)
  {
    var x := ReplaceEnDashes(s);
    var t := CleanedCaseNumber(s);
    var k, e :| StrippedAt(x, k, e) && t == x[k..e];
    SliceAvoids(x, k, e, c);
  }

  lemma SliceAvoids(x: string, k: int, e: int, c: char)
    requires 0 <= k <= e <= |x| && c !in x
    ensures c !in x[k..e]
  {
    assert forall j :: 0 <= j < e - k ==> x[k..e][j] == x[k + j];
  }

  /** Padding brings in only zeros and, for a missing field, the letters of "undefined". */
  lemma PadFieldsAvoid(fs: seq<string>, c: char)
    requires c != '0' && c !in Undefined
    requires forall i :: 0 <= i < |fs| ==> c !in fs[i]
    ensures forall i :: 0 <= i < |PadFields(fs)| ==> c !in PadFields(fs)[i]
  {
    var ps := PadFields(fs);
    forall i | 0 <= i < |ps| ensures c !in ps[i] {
      if i >= 3 {
        assert ps[i] == fs[i];
      } else {
        var p := Field(fs, i);
        assert c !in p;
        var r := PadField(p, if i == 2 then 5 else 2);
        assert ps[i] == r;
        assert forall j :: 0 <= j < |r| ==> r[j] == '0' || r[j] in p;
      }
    }
  }

  /** The result is empty exactly when the text holds no ASCII digit. */
  lemma EmptyExactlyWithoutDigit(s: string)
    ensures NormalizedCaseNumber(s) == [] <==> !HasDigit(s)
  {
  }

  /**
   * A number that does not end in CR or CV after cleaning is returned as cleaned:
   * the stretch of the en-dash-free text from its first digit to its last
   * character in {C, R, V, 0-9}.
   */
  lemma PlainNumberIsCleaned(s: string)
    requires !EndsWithCrCv(CleanedCaseNumber(s))
    ensures var r := NormalizedCaseNumber(s); var x := ReplaceEnDashes(s);
      (exists k, e :: StrippedAt(x, k, e) && r == x[k..e])
      && (r != [] ==> IsDigit(r[0]) && IsTailChar(r[|r| - 1]))
  {
  }

  /** The last field of a number ending in CR or CV ends in CR or CV itself. */
  lemma LastFieldEndsWithCrCv(t: string)
    requires EndsWithCrCv(t)
    ensures var fs := Split(t, Hyphen); EndsWithCrCv(fs[|fs| - 1])
  {
    var fs := Split(t, Hyphen);
    if |fs| >= 2 {
      JoinLast(fs, Hyphen);
      AfterHyphenEndsWithCrCv(Join(fs[..|fs| - 1], Hyphen), fs[|fs| - 1]);
    }
  }

  lemma AfterHyphenEndsWithCrCv(front: string, last: string)
    requires EndsWithCrCv(front + [Hyphen] + last)
    ensures EndsWithCrCv(last)
  {
    var t := front + [Hyphen] + last;
    assert t[|front|] == Hyphen;
    assert forall j :: 0 <= j < |last| ==> t[|front| + 1 + j] == last[j];
  }

  /** Joining keeps the CR or CV at the end of the last field. */
  lemma JoinEndsWithCrCv(fs: seq<string>)
    requires |fs| >= 1 && EndsWithCrCv(fs[|fs| - 1])
    ensures EndsWithCrCv(Join(fs, Hyphen))
  {
    if |fs| >= 2 {
      JoinLast(fs, Hyphen);
    }
  }

  /** Forcing a field that ends in CR or CV to width 5 keeps the ending. */
  lemma PadKeepsCrCv(p: string)
    requires EndsWithCrCv(p)
    ensures EndsWithCrCv(PadField(p, 5))
  {
    var r := PadField(p, 5);
    if |p| < 5 {
      assert r == Zeros(5 - |p|) + p;
    } else {
      assert r == p[|p| - 5..];
    }
  }

  /** No padded field contains a hyphen, so the joined fields split back apart. */
  lemma PadFieldsSplitBack(fs: seq<string>)
    requires forall i :: 0 <= i < |fs| ==> Hyphen !in fs[i]
    ensures Split(Join(PadFields(fs), Hyphen), Hyphen) == PadFields(fs)
  {
    PadFieldsAvoid(fs, Hyphen);
    SplitJoin(PadFields(fs), Hyphen);
  }

  /** PadFields on the field level: widths, later fields, and JavaScript's reading of missing ones. */
  lemma PadFieldsShape(fs: seq<string>)
    requires |fs| >= 1
    ensures var ps := PadFields(fs);
      && |ps| == (if |fs| < 3 then 3 else |fs|)
      && PaddedTo(ps[0], fs[0], 2)
      && PaddedTo(ps[1], Field(fs, 1), 2)
      && PaddedTo(ps[2], Field(fs, 2), 5)
      && (forall i :: 3 <= i < |fs| ==> ps[i] == fs[i])
      && (|fs| == 1 ==> ps[1] == "ed")
      && (|fs| <= 2 ==> ps[2] == "fined")
  {
    var ps := PadFields(fs);
    assert Undefined[|Undefined| - 2..] == "ed";
    assert Undefined[|Undefined| - 5..] == "fined";
    forall i | 3 <= i < |fs| ensures ps[i] == fs[i] {
      assert ps[i] == fs[3..][i - 3];
    }
  }

  /** With three or more fields, padding keeps the CR or CV at the end. */
  lemma PadFieldsEndWithCrCv(fs: seq<string>)
    requires |fs| >= 3 && EndsWithCrCv(fs[|fs| - 1])
    ensures EndsWithCrCv(Join(PadFields(fs), Hyphen))
  {
    var ps := PadFields(fs);
    if |fs| == 3 {
      PadKeepsCrCv(fs[2]);
      assert ps[|ps| - 1] == PadField(fs[2], 5);
    } else {
      assert ps[|ps| - 1] == fs[3..][|fs| - 4];
    }
    JoinEndsWithCrCv(ps);
  }

  /**
   * The padding of a CR or CV number: the result has max(3, n) fields where the
   * cleaned number had n, its first three are the first three fields (or
   * JavaScript's "undefined" for a missing one) forced to widths 2, 2 and 5,
   * every later field is unchanged, and with three or more fields the result
   * still ends in CR or CV.
   */
  lemma CrCvNumberPadded(s: string)
    requires EndsWithCrCv(CleanedCaseNumber(s))
    ensures var fs := Split(CleanedCaseNumber(s), Hyphen);
      var out := Split(NormalizedCaseNumber(s), Hyphen);
      && |out| == (if |fs| < 3 then 3 else |fs|)
      && PaddedTo(out[0], fs[0], 2)
      && PaddedTo(out[1], Field(fs, 1), 2)
      && PaddedTo(out[2], Field(fs, 2), 5)
      && (forall i :: 3 <= i < |fs| ==> out[i] == fs[i])
      && (|fs| == 1 ==> out[1] == "ed" && out[2] == "fined")
      && (|fs| == 2 ==> out[2] == "fined")
      && (|fs| >= 3 ==> EndsWithCrCv(NormalizedCaseNumber(s)))
  {
    var t := CleanedCaseNumber(s);
    var fs := Split(t, Hyphen);
    PadFieldsSplitBack(fs);
    PadFieldsShape(fs);
    if |fs| >= 3 {
      LastFieldEndsWithCrCv(t);
      PadFieldsEndWithCrCv(fs);
    }
  }

  /**
   * A number with no en-dash that starts with a digit, ends in CR or CV and has
   * at least three fields of widths 2, 2 and 5 comes back unchanged.
   */
  lemma WellFormedUnchanged(s: string)
    requires EnDash !in s
    requires |s| > 0 && IsDigit(s[0])
    requires EndsWithCrCv(s)
    requires var fs := Split(s, Hyphen); |fs| >= 3 && |fs[0]| == 2 && |fs[1]| == 2 && |fs[2]| == 5
    ensures NormalizedCaseNumber(s) == s
  {
    assert CleanedCaseNumber(s) == s by {
      ReplaceWithoutEnDash(s);
      StripClean(s);
    }
    PadFieldsExact(Split(s, Hyphen));
  }

  /** Fields already of widths 2, 2 and 5 are left as they are. */
  lemma PadFieldsExact(fs: seq<string>)
    requires |fs| >= 3 && |fs[0]| == 2 && |fs[1]| == 2 && |fs[2]| == 5
    ensures PadFields(fs) == fs
  {
    PadFieldsShape(fs);
    assert fs == [fs[0], fs[1], fs[2]] + (if |fs| > 3 then fs[3..] else []);
  }

  /** The canonical forms dd-dd-ddddd-CR and dd-dd-ddddd-CV. */
  predicate IsCanonical(s: string) {
    |s| == 14
    && AllDigits(s[..2]) && s[2] == Hyphen
    && AllDigits(s[3..5]) && s[5] == Hyphen
    && AllDigits(s[6..11]) && s[11] == Hyphen
    && s[12] == 'C' && (s[13] == 'R' || s[13] == 'V')
  }

  /** A canonical number is a fixed point of the normaliser. */
  lemma CanonicalUnchanged(s: string)
    requires IsCanonical(s)
    ensures NormalizedCaseNumber(s) == s
  {
    CanonicalFields(s);
    assert s[0] == s[..2][0];
    assert EnDash !in s by {
      forall i | 0 <= i < |s| ensures s[i] != EnDash {
        if i < 2 {
          assert s[i] == s[..2][i];
        } else if 2 < i < 5 {
          assert s[i] == s[3..5][i - 3];
        } else if 5 < i < 11 {
          assert s[i] == s[6..11][i - 6];
        }
      }
    }
    WellFormedUnchanged(s);
  }

  /** The four fields of a canonical number. */
  lemma CanonicalFields(s: string)
    requires IsCanonical(s)
    ensures Split(s, Hyphen) == [s[..2], s[3..5], s[6..11], s[12..]]
  {
    var fs := [s[..2], s[3..5], s[6..11], s[12..]];
    JoinFour(s[..2], s[3..5], s[6..11], s[12..]);
    assert s == s[..2] + [Hyphen] + s[3..5] + [Hyphen] + s[6..11] + [Hyphen] + s[12..];
    forall i | 0 <= i < |fs| ensures Hyphen !in fs[i] {
      if i < 3 {
        assert AllDigits(fs[i]);
      } else {
        assert fs[i] == [s[12], s[13]];
      }
    }
    SplitJoin(fs, Hyphen);
  }

  lemma JoinFour(a: string, b: string, c: string, d: string)
    ensures Join([a, b, c, d], Hyphen) == a + [Hyphen] + b + [Hyphen] + c + [Hyphen] + d
  {
    assert [a, b, c, d][1..] == [b, c, d];
    assert [b, c, d][1..] == [c, d];
    assert [c, d][1..] == [d];
    assert Join([c, d], Hyphen) == c + [Hyphen] + d;
    assert Join([b, c, d], Hyphen) == b + [Hyphen] + (c + [Hyphen] + d);
    assert Join([a, b, c, d], Hyphen) == a + [Hyphen] + (b + [Hyphen] + (c + [Hyphen] + d));
  }

  /**
   * Normalising twice is normalising once, unless a CR or CV number has fewer
   * than three fields or a first field that is not all digits (for those the
   * padding can leave a result that cleans differently; see NoHyphenNumberNotStable).
   */
  lemma Idempotent(s: string)
    requires var t := CleanedCaseNumber(s);
      EndsWithCrCv(t) ==> |Split(t, Hyphen)| >= 3 && AllDigits(Split(t, Hyphen)[0])
    ensures NormalizedCaseNumber(NormalizedCaseNumber(s)) == NormalizedCaseNumber(s)
  {
    var t := CleanedCaseNumber(s);
    var u := NormalizedCaseNumber(s);
    NoEnDashInResult(s);
    if !EndsWithCrCv(t) {
      ReplaceWithoutEnDash(t);
      StripClean(t);
    } else {
      var fs := Split(t, Hyphen);
      var ps := PadFields(fs);
      CrCvNumberPadded(s);
      PadFieldsShape(fs);
      JoinStartsWithFirst(ps, Hyphen);
      assert u[0] == ps[0][0];
      assert IsDigit(ps[0][0]) by {
        if |fs[0]| < 2 {
          assert ps[0] == Zeros(2 - |fs[0]|) + fs[0];
        } else {
          assert ps[0] == fs[0][|fs[0]| - 2..];
        }
      }
      WellFormedUnchanged(u);
    }
  }

  // ---------------------------------------------------------------------------
  // Surrounding text, en-dashes, and numbers that are short of fields

  /** Replacing en-dashes works character by character, so it distributes over concatenation. */
  lemma ReplaceAppend(a: string, b: string)
    ensures ReplaceEnDashes(a + b) == ReplaceEnDashes(a) + ReplaceEnDashes(b)
  {
    var l := ReplaceEnDashes(a + b);
    var r := ReplaceEnDashes(a) + ReplaceEnDashes(b);
    assert |l| == |r|;
    forall i | 0 <= i < |l| ensures l[i] == r[i] {
      if i < |a| {
        assert (a + b)[i] == a[i];
      } else {
        assert (a + b)[i] == b[i - |a|];
      }
    }
  }

  /** Text that was already turned into hyphens normalises the same way. */
  lemma EnDashesAreHyphens(s: string)
    ensures NormalizedCaseNumber(ReplaceEnDashes(s)) == NormalizedCaseNumber(s)
  {
    ReplaceWithoutEnDash(ReplaceEnDashes(s));
  }

  /**
   * A prefix without digits before the number ("No. ") and trailing text made only
   * of characters outside {C, R, V, 0-9} change nothing, whatever the number is.
   */
  lemma SurroundingTextIgnored(lead: string, n: string, trailer: string)
    requires !HasDigit(lead)
    requires forall j :: 0 <= j < |trailer| ==> !IsTailChar(trailer[j])
    ensures NormalizedCaseNumber(lead + n + trailer) == NormalizedCaseNumber(n)
  {
    ReplaceAppend(lead + n, trailer);
    ReplaceAppend(lead, n);
    var l, y, tr := ReplaceEnDashes(lead), ReplaceEnDashes(n), ReplaceEnDashes(trailer);
    ReplaceKeepsDigits(lead);
    ReplaceKeepsDigits(n);
    assert forall j :: 0 <= j < |tr| ==> !IsTailChar(tr[j]);
    if HasDigit(y) {
      StripAround(l, y, tr);
    } else {
      NoDigitAround(l, y, tr);
    }
  }

  /** Text around y that has no digit before it and no kept character after it is stripped away. */
  lemma StripAround(l: string, y: string, tr: string)
    requires !HasDigit(l) && HasDigit(y)
    requires forall j :: 0 <= j < |tr| ==> !IsTailChar(tr[j])
    ensures StripEdges(l + y + tr) == StripEdges(y)
  {
    var r := StripEdges(y);
    var k, e :| StrippedAt(y, k, e) && r == y[k..e];
    assert r != [];
    var x := l + y + tr;
    StrippedAtShift(l, y, tr, k, e);
    var rx := StripEdges(x);
    var k', e' :| StrippedAt(x, k', e') && rx == x[k'..e'];
    StrippedAtUnique(x, k', e', |l| + k, |l| + e);
    SliceMiddle(l, y, tr, k, e);
  }

  lemma SliceMiddle(l: string, y: string, tr: string, k: int, e: int)
    requires 0 <= k <= e <= |y|
    ensures (l + y + tr)[|l| + k..|l| + e] == y[k..e]
  {
    var x := l + y + tr;
    assert forall j :: k <= j < e ==> x[|l| + j] == y[j];
  }

  /** The strip bounds of y, moved past l, are the strip bounds of l + y + tr. */
  lemma StrippedAtShift(l: string, y: string, tr: string, k: int, e: int)
    requires !HasDigit(l) && StrippedAt(y, k, e) && k < e
    requires forall j :: 0 <= j < |tr| ==> !IsTailChar(tr[j])
    ensures StrippedAt(l + y + tr, |l| + k, |l| + e)
  {
    var x := l + y + tr;
    forall j | 0 <= j < |l| + k ensures !IsDigit(x[j]) {
      if j < |l| {
        assert x[j] == l[j];
      } else {
        assert x[j] == y[j - |l|];
      }
    }
    forall j | |l| + e <= j < |x| ensures !IsTailChar(x[j]) {
      if j < |l| + |y| {
        assert x[j] == y[j - |l|];
      } else {
        assert x[j] == tr[j - |l| - |y|];
      }
    }
    assert x[|l| + k] == y[k] && x[|l| + e - 1] == y[e - 1];
  }

  /** Without a digit anywhere, the text and the number both strip to nothing. */
  lemma NoDigitAround(l: string, y: string, tr: string)
    requires !HasDigit(l) && !HasDigit(y)
    requires forall j :: 0 <= j < |tr| ==> !IsTailChar(tr[j])
    ensures StripEdges(l + y + tr) == StripEdges(y) == []
  {
    var x := l + y + tr;
    forall j | 0 <= j < |x| ensures !IsDigit(x[j]) {
      if j < |l| {
        assert x[j] == l[j];
      } else if j < |l| + |y| {
        assert x[j] == y[j - |l|];
      } else {
        assert x[j] == tr[j - |l| - |y|];
      }
    }
  }

  /**
   * A CR or CV number without a hyphen: its only field is cut to its last two
   * characters (the CR or CV) and the two missing fields read as "undefined".
   */
  lemma NoHyphenNumber(s: string)
    requires EndsWithCrCv(CleanedCaseNumber(s)) && Hyphen !in CleanedCaseNumber(s)
    ensures var t := CleanedCaseNumber(s); NormalizedCaseNumber(s) == t[|t| - 2..] + "-ed-fined"
  {
    NoHyphenPadding(CleanedCaseNumber(s));
  }

  lemma NoHyphenPadding(t: string)
    requires EndsWithCrCv(t) && Hyphen !in t
    ensures PaddedCaseNumber(t) == t[|t| - 2..] + "-ed-fined"
  {
    SplitPiece(t, Hyphen);
    SingleFieldPadded(t);
    JoinMissingFields(t[|t| - 2..]);
  }

  /** A lone field is cut to width 2 and the two missing ones read as the tails of "undefined". */
  lemma SingleFieldPadded(t: string)
    requires |t| >= 2
    ensures PadFields([t]) == [t[|t| - 2..], "ed", "fined"]
  {
    PadFieldsShape([t]);
  }

  lemma JoinMissingFields(a: string)
    ensures Join([a, "ed", "fined"], Hyphen) == a + "-ed-fined"
  {
    JoinThree(a, "ed", "fined");
    assert [Hyphen] + "ed" + [Hyphen] + "fined" == "-ed-fined";
    assert a + [Hyphen] + "ed" + [Hyphen] + "fined" == a + ([Hyphen] + "ed" + [Hyphen] + "fined");
  }

  /** Such a result holds no digit, so normalising it again gives the empty string. */
  lemma NoHyphenNumberNotStable(s: string)
    requires EndsWithCrCv(CleanedCaseNumber(s)) && Hyphen !in CleanedCaseNumber(s)
    ensures NormalizedCaseNumber(NormalizedCaseNumber(s)) == []
  {
    NoHyphenNumber(s);
    CrCvUndefinedHasNoDigit(CleanedCaseNumber(s));
    EmptyExactlyWithoutDigit(NormalizedCaseNumber(s));
  }

  lemma CrCvUndefinedHasNoDigit(t: string)
    requires EndsWithCrCv(t)
    ensures !HasDigit(t[|t| - 2..] + "-ed-fined")
  {
    var u := t[|t| - 2..] + "-ed-fined";
    var w := "-ed-fined";
    forall i | 0 <= i < |u| ensures !IsDigit(u[i]) {
      if i >= 2 {
        assert u[i] == w[i - 2];
      } else {
        assert u[i] == t[|t| - 2 + i];
      }
    }
  }

  /** A clean number of exactly three fields is padded field by field. */
  lemma ThreeFieldNumber(a: string, b: string, c: string)
    requires Hyphen !in a && Hyphen !in b && Hyphen !in c
    requires EnDash !in a && EnDash !in b && EnDash !in c
    requires |a| > 0 && IsDigit(a[0]) && EndsWithCrCv(c)
    ensures NormalizedCaseNumber(a + [Hyphen] + b + [Hyphen] + c)
      == PadField(a, 2) + [Hyphen] + PadField(b, 2) + [Hyphen] + PadField(c, 5)
  {
    var t := a + [Hyphen] + b + [Hyphen] + c;
    assert EndsWithCrCv(t) by {
      assert t[|t| - 2] == c[|c| - 2] && t[|t| - 1] == c[|c| - 1];
    }
    assert t[0] == a[0];
    assert EnDash !in t;
    JoinThree(a, b, c);
    SplitJoin([a, b, c], Hyphen);
    CleanCrCvNumber(t);
    assert PadFields([a, b, c]) == [PadField(a, 2), PadField(b, 2), PadField(c, 5)];
    JoinThree(PadField(a, 2), PadField(b, 2), PadField(c, 5));
  }

  /** A clean text that ends in CR or CV goes straight to the padding. */
  lemma CleanCrCvNumber(t: string)
    requires EnDash !in t && |t| > 0 && IsDigit(t[0]) && EndsWithCrCv(t)
    ensures NormalizedCaseNumber(t) == Join(PadFields(Split(t, Hyphen)), Hyphen)
  {
    ReplaceWithoutEnDash(t);
    StripClean(t);
  }

  lemma JoinThree(a: string, b: string, c: string)
    ensures Join([a, b, c], Hyphen) == a + [Hyphen] + b + [Hyphen] + c
  {
    assert [a, b, c][1..] == [b, c];
    assert [b, c][1..] == [c];
    assert Join([b, c], Hyphen) == b + [Hyphen] + c;
  }

  // ---------------------------------------------------------------------------
  // Worked examples

  /** "123CR" has one field only and becomes "CR-ed-fined". */
  lemma ShortNumberPadding()
    ensures NormalizedCaseNumber("123CR") == "CR-ed-fined"
  {
    ShortNumberFacts();
    CleanText("123CR");
    NoHyphenNumber("123CR");
  }

  lemma ShortNumberFacts()
    ensures EnDash !in "123CR" && IsDigit("123CR"[0]) && EndsWithCrCv("123CR") && Hyphen !in "123CR"
    ensures "123CR"[3..] + "-ed-fined" == "CR-ed-fined"
  {
  }

  /** ... and "CR-ed-fined" holds no digit, so it normalises to the empty string. */
  lemma ShortNumberResultEmpties()
    ensures NormalizedCaseNumber("CR-ed-fined") == ""
  {
    NoDigitIn("CR-ed-fined");
    EmptyExactlyWithoutDigit("CR-ed-fined");
  }

  /** "5-7-123CR" becomes "05-07-123CR": the CR glued to the third field is padded with it. */
  lemma GluedSuffixPadding()
    ensures NormalizedCaseNumber("5-7-123CR") == "05-07-123CR"
  {
    GluedSuffixFacts();
    ThreeFieldNumber("5", "7", "123CR");
  }

  lemma GluedSuffixFacts()
    ensures "5-7-123CR" == "5" + [Hyphen] + "7" + [Hyphen] + "123CR"
    ensures Hyphen !in "5" && Hyphen !in "7" && Hyphen !in "123CR"
    ensures EnDash !in "5" && EnDash !in "7" && EnDash !in "123CR"
    ensures IsDigit("5"[0]) && EndsWithCrCv("123CR")
    ensures PadField("5", 2) + [Hyphen] + PadField("7", 2) + [Hyphen] + PadField("123CR", 5) == "05-07-123CR"
  {
    GluedSuffixFields();
  }

  lemma GluedSuffixFields()
    ensures PadField("5", 2) == "05" && PadField("7", 2) == "07" && PadField("123CR", 5) == "123CR"
  {
    assert Zeros(1) == "0";
  }

  /** Docket text with a "No." label and en-dashes yields the canonical number. */
  lemma DocketTextNormalized()
    ensures NormalizedCaseNumber("No. 12–34–05678-CR") == "12-34-05678-CR"
  {
    DocketTextFacts();
    DocketDashFacts();
    SurroundingTextIgnored("No. ", "12–34–05678-CR", "");
    EnDashesAreHyphens("12–34–05678-CR");
    CanonicalUnchanged("12-34-05678-CR");
  }

  lemma DocketTextFacts()
    ensures "No. " + "12–34–05678-CR" + "" == "No. 12–34–05678-CR"
    ensures !HasDigit("No. ")
    ensures IsDigit("12–34–05678-CR"[0]) && IsTailChar("12–34–05678-CR"[13])
    ensures IsCanonical("12-34-05678-CR")
  {
    NoDigitIn("No. ");
    CanonicalExample();
  }

  lemma CanonicalExample()
    ensures IsCanonical("12-34-05678-CR")
  {
    var c := "12-34-05678-CR";
    assert c[..2] == "12" && c[3..5] == "34" && c[6..11] == "05678";
  }

  lemma DocketDashFacts()
    ensures ReplaceEnDashes("12–34–05678-CR") == "12-34-05678-CR"
  {
    ReplaceEnDashesPointwise("12–34–05678-CR", "12-34-05678-CR");
  }

  lemma CleanText(t: string)
    requires EnDash !in t && |t| > 0 && IsDigit(t[0]) && IsTailChar(t[|t| - 1])
    ensures CleanedCaseNumber(t) == t
  {
    ReplaceWithoutEnDash(t);
    StripClean(t);
  }

  lemma NoDigitIn(u: string)
    requires forall i :: 0 <= i < |u| ==> !IsDigit(u[i])
    ensures !HasDigit(u)
  {
  }
}
