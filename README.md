# Texas case numbers and docket links

This project models the part of the legal-research user script `main.js` that turns
a Texas state-court case number on a Westlaw page into a search link. There are two
pieces:

- **The normaliser, `RealCaseNumberFromString`.** It replaces en-dashes with
  hyphens. It strips the leading text up to the first digit and the trailing
  characters outside `C`, `R`, `V` and `0-9`. For a number that then ends in `CR`
  or `CV`, it forces the first three hyphen-separated fields to widths 2, 2 and 5:
  a shorter field gets leading zeros, and a longer field keeps only its last
  characters.
- **The document-ready handler's decisions.**
  - It reads the court named in the court block. The Supreme Court, the Courts of
    Appeals and the Court of Civil Appeals are tested first; the Court of Criminal
    Appeals is tested second.
  - It picks the TAMES page to open. That is the case page when the normalised
    number is non-empty, and the case-search form otherwise.
  - It decides whether a Court of Criminal Appeals docket gets its search click.
    That happens only when the number is non-empty.

The modules are:

- `Strings` (`strings.dfy`): JavaScript string operations. The normaliser uses
  `slice(-n)`, and `split` and `join` on one character. The court classification
  in `DocketLinks` uses the substring search of an anchor-free regular expression.
- `CaseNumbers` (`case_number.dfy`): the normaliser. Its steps are functions, and
  `NormalizedCaseNumber` is their composition. The method
  `RealCaseNumberFromString` follows the source statement by statement: it
  rebinds the number and overwrites the array of fields element by element.
  Lemmas state what the result is.
- `DocketLinks` (`docket_links.dfy`): the court classification, the search path,
  and the link each docket block ends up with.

A `CR` glued to the third field is padded with it, so `"5-7-123CR"` becomes
`"05-07-123CR"` (`CaseNumbers.GluedSuffixPadding`).

A missing field is modelled as JavaScript reads it. `caseNoParts[1]` of a
one-field array is `undefined`, so `("00" + undefined).slice(-2)` is `"ed"` and
the five-wide field is `"fined"`. For example, `"123CR"` becomes
`"CR-ed-fined"`.

## Model

| member | source | states |
|---|---|---|
| CaseNumbers.RealCaseNumberFromString | main.js:21-34 | returns the normalised number of the text; the result has no en-dash, and it is empty exactly when the text has no ASCII digit |
| CaseNumbers.ReplaceEnDashes | main.js:23 | every en-dash becomes a hyphen and every other character is kept in place; the length is kept and no en-dash remains |
| CaseNumbers.StripEdges | main.js:23 | the result is the slice between the first digit and the last character in {C, R, V, 0-9}; everything before is a non-digit and everything after is outside that set; it is empty exactly when there is no digit; a non-empty result starts with a digit and ends with a kept character |
| CaseNumbers.FirstDigit | main.js:23 | the end of `^[^\d]+`: everything before it is a non-digit, and the character there is a digit unless it is the end |
| CaseNumbers.TailEnd | main.js:23 | the start of `[^CRV\d]+$`: everything from it on is outside {C, R, V, 0-9}, and the character before it is in that set |
| CaseNumbers.StrippedAtUnique | main.js:23 | the bounds of that slice are determined by the text |
| CaseNumbers.StripIdempotent | main.js:23 | stripping a stripped number changes nothing |
| CaseNumbers.PadField | main.js:28-30 | `("0…0" + p).slice(-w)` has width w; it is zeros and then p when p is shorter, and the last w characters of p otherwise; it is a suffix of the zeros plus p |
| Strings.SliceLast | main.js:28-30 | `slice(-n)` keeps min(length, n) characters, and they are a suffix of the string |
| CaseNumbers.Store | main.js:28-30 | an element assignment sets that index and keeps the others, and one past the end extends the array by one |
| CaseNumbers.PaddingInPlace | main.js:27-30 | the three in-place assignments give the padded fields (width 2, 2, 5, then the rest unchanged) for any number of fields |
| Strings.Split | main.js:27 | at least one field; no field contains the separator; joining the fields gives the string back |
| Strings.SplitJoin | main.js:27-31 | splitting a join of separator-free fields gives the fields back |
| Strings.SplitFieldCount | main.js:27 | there is one more field than separators |
| CaseNumbers.NoEnDashInResult | main.js:23-31 | no en-dash survives normalisation |
| CaseNumbers.EmptyExactlyWithoutDigit | main.js:23-33 | the normalised number is empty if and only if the text has no ASCII digit |
| CaseNumbers.PlainNumberIsCleaned | main.js:23-33 | when the cleaned number does not end in CR or CV, it is returned as the stripped slice of the en-dash-free text |
| CaseNumbers.CrCvNumberPadded | main.js:26-31 | a CR/CV number keeps max(3, n) fields; fields 0, 1 and 2 are padded to widths 2, 2 and 5; later fields are unchanged; missing fields read "ed" and "fined"; with at least three fields the CR/CV ending is kept |
| CaseNumbers.WellFormedUnchanged | main.js:21-34 | a digit-leading CR/CV number without en-dashes whose first three fields already have widths 2, 2 and 5 is returned unchanged |
| CaseNumbers.CanonicalUnchanged | main.js:21-34 | every number of the form dd-dd-ddddd-CR or dd-dd-ddddd-CV is a fixed point |
| CaseNumbers.Idempotent | main.js:21-34 | normalising twice equals normalising once, whenever a CR/CV number has at least three fields and an all-digit first field |
| CaseNumbers.EnDashesAreHyphens | main.js:23 | text whose en-dashes were already hyphens normalises the same way |
| CaseNumbers.SurroundingTextIgnored | main.js:23 | for any number, a digit-free prefix, such as "No. ", and a trailer with no character in {C, R, V, 0-9} do not change the result |
| CaseNumbers.NoHyphenNumber | main.js:26-31 | a CR/CV number without hyphens becomes its last two characters followed by "-ed-fined" |
| CaseNumbers.NoHyphenNumberNotStable | main.js:21-34 | such a result normalises again to the empty string |
| CaseNumbers.ThreeFieldNumber | main.js:26-31 | a clean three-field CR/CV number is the three fields, each padded, joined by hyphens |
| CaseNumbers.ShortNumberPadding | main.js:21-34 | "123CR" gives "CR-ed-fined" |
| CaseNumbers.ShortNumberResultEmpties | main.js:21-34 | "CR-ed-fined" gives "" |
| CaseNumbers.GluedSuffixPadding | main.js:26-31 | "5-7-123CR" gives "05-07-123CR" |
| CaseNumbers.DocketTextNormalized | main.js:21-34 | "No. 12–34–05678-CR" with en-dashes gives "12-34-05678-CR" |
| Strings.ContainsWithin | main.js:40 | a pattern found in a text is still found when text is added around it |
| DocketLinks.CriminalCourtNameIsNotTames | main.js:40-58 | the Court of Criminal Appeals' name does not match the first pattern, so it is classified in the second branch |
| DocketLinks.CourtNamesClassified | main.js:40-58 | each of the four court names is classified as its own court |
| DocketLinks.TamesNameDecides | main.js:40-58 | a court block naming a TAMES court is a TAMES court whatever surrounds the name, even when the Court of Criminal Appeals is named too |
| DocketLinks.SearchPath | main.js:43-49 | the case number can be read back from the path (with CaseNumberInPath) exactly when it is non-empty, and it comes back unchanged; the empty number gets a path that is not a case page |
| DocketLinks.CaseNumberInPath | main.js:49 | reading a number back gives a non-empty number that follows the case-page prefix |
| DocketLinks.SearchPathInjective | main.js:48-49 | different numbers give different paths |
| DocketLinks.DocketLinkCases | main.js:39-85 | for a docket block on the page, a TAMES court always gets a link: to its case page exactly when the docket text has a digit, otherwise to the search form. A Court of Criminal Appeals docket gets its form click if and only if the text has a digit, and the form then gets the non-empty, en-dash-free number. Any other court gets no link |

## Left out

- Page styling: the dissent and concurrence highlighting and the star-page font size (main.js lines 12-18 and 87-98). These are CSS effects with no decision in them.
- The link's look: the blue underline and pointer cursor that `.css` sets on the docket block. The model records only which link the block gets (the `DocketLink` value).
- `window.open` and form submission: these are browser navigation. The model stops at the URL, or at the case number the form would carry.
- Creating the Court of Criminal Appeals form and its input field (lines 62-73): this is DOM construction. It does not affect which link is made or what number it carries.
- jQuery truthiness guards (`cblock &&`, `if(caseNoBlock)`): a jQuery selection is always truthy, so these guards never fail. A missing docket block reads as empty text. In the source it then gets no link, because `.css` and `.on` act on an empty selection. `DocketLink` describes the link a docket block that exists on the page gets.
- Click handlers run later and capture `path` and `caseNo`: neither is reassigned after the handler is attached, so the model uses their values directly.
- General regular-expression semantics: each pattern is modelled as the specific match it performs. That is a substring search for the court names, an end check for `C[RV]`, and the two strip scans.
- Characters: strings are sequences of Unicode characters rather than UTF-16 code units. The en-dash and every character the source tests for are single code units. So the en-dash replacement, the two strips, the `C[RV]$` test, `split` and the court searches are unaffected.
- CaseNumbers.PadField and Strings.SliceLast: these count characters, while `slice(-2)` and `slice(-5)` count UTF-16 code units. A field holding a character outside the Basic Multilingual Plane, such as an emoji, is two units there. JavaScript can then keep fewer characters, or half of a surrogate pair, which a Dafny `char` cannot hold. The model does not capture padding such a field.
- DocketLinks.ClassifyCourt (lines 40 and 58): it carries no contract of its own. Its behaviour is stated by CriminalCourtNameIsNotTames, CourtNamesClassified, TamesNameDecides and DocketLinkCases.
- CaseNumbers.EndsWithCrCv (`/C[RV]$/`, line 26): a predicate with no contract of its own. CrCvNumberPadded, PlainNumberIsCleaned and NoHyphenNumber state what follows from it.
- CaseNumbers.Field and CaseNumbers.PadFields (lines 28-30): they carry no contract of their own. PadFieldsShape and PaddingInPlace state what they give, missing fields included.
- CaseNumbers.NormalizedCaseNumber (lines 21-34): the composition of the steps. RealCaseNumberFromString is proved equal to it, and the lemmas from NoEnDashInResult on state properties of it.
- CaseNumbers.CleanedCaseNumber (line 23, both replaces): the composition of ReplaceEnDashes and StripEdges, with no contract of its own. Their contracts, CleanedAvoids and PlainNumberIsCleaned state what it gives.
- CaseNumbers.PaddedCaseNumber (lines 26-32, the CR/CV branch in closed form): it carries no contract of its own. PaddingInPlace ties it to the element assignments the method makes, and CrCvNumberPadded, NoHyphenNumber and NoHyphenPadding state what it gives.
- Strings.Join (line 31): it carries no contract of its own. Split's contract, SplitJoin, JoinLast and JoinStartsWithFirst state its behaviour.
- DocketLinks.NamesTamesCourt (line 40's pattern): it carries no contract of its own. CriminalCourtNameIsNotTames, CourtNamesClassified and TamesNameDecides state its behaviour.
- DocketLinks.DocketLinkFor (lines 39-85): it carries no contract of its own. DocketLinkCases states every outcome.
