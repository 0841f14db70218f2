/*
 * Character classes and the few JavaScript string operations the case-number
 * normaliser relies on: `String.prototype.slice` with a negative start,
 * `split` on a one-character separator, `Array.prototype.join`, and the
 * substring search a plain (anchor-free) regular expression performs.
 */
module Strings {

  /** JavaScript's `\d`: the ASCII digits only. */
  predicate IsDigit(c: char) {
    '0' <= c <= '9'
  }

  predicate HasDigit(s: string) {
    exists i :: 0 <= i < |s| && IsDigit(s[i])
  }

  predicate AllDigits(s: string) {
    forall i :: 0 <= i < |s| ==> IsDigit(s[i])
  }

  /** The string of n zero characters. */
  function Zeros(n: nat): (z: string)
    ensures |z| == n
    ensures AllDigits(z)
    ensures forall i :: 0 <= i < n ==> z[i] == '0'
  {
    seq(n, _ => '0')
  }

  /** JavaScript's `s.slice(-n)` for n > 0: the last n characters, or all of s when it is shorter. */
  function SliceLast(s: string, n: nat): (r: string)
    requires n > 0
    ensures |r| == if |s| < n then |s| else n
    ensures s == s[..|s| - |r|] + r
  {
    if |s| < n then s else s[|s| - n..]
  }

  /** `fs.join(sep)` for an array of strings. */
  function Join(fs: seq<string>, sep: char): string
  {
    if |fs| == 0 then []
    else if |fs| == 1 then fs[0]
    else fs[0] + [sep] + Join(fs[1..], sep)
  }

  /**
   * `s.split(sep)` for a one-character separator: the maximal separator-free
   * pieces between separators, so there is always one more field than there are
   * separators and the empty string splits into one empty field.
   */
  function Split(s: string, sep: char): (fs: seq<string>)
    ensures |fs| >= 1
    ensures forall i :: 0 <= i < |fs| ==> sep !in fs[i]
    ensures forall i, j :: 0 <= i < |fs| && 0 <= j < |fs[i]| ==> fs[i][j] in s
    ensures Join(fs, sep) == s
    decreases |s|
  {
    if s == [] then [[]]
    else
      var rest := Split(s[1..], sep);
      if s[0] == sep then
        assert s == [sep] + s[1..];
        [[]] + rest
      else
        var fs := [[s[0]] + rest[0]] + rest[1..];
        assert |rest| > 1 ==> Join(rest, sep) == rest[0] + [sep] + Join(rest[1..], sep);
        assert |rest| > 1 ==> fs[1..] == rest[1..];
        assert s == [s[0]] + s[1..];
        fs
  }

  /** The text of the first field leads the joined string. */
  lemma JoinStartsWithFirst(fs: seq<string>, sep: char)
    requires |fs| >= 1
    ensures |Join(fs, sep)| >= |fs[0]|
    ensures Join(fs, sep)[..|fs[0]|] == fs[0]
  {
  }

  /** The joined string ends with a separator followed by the last field. */
  lemma {:induction false} JoinLast(fs: seq<string>, sep: char)
    requires |fs| >= 2
    ensures Join(fs, sep) == Join(fs[..|fs| - 1], sep) + [sep] + fs[|fs| - 1]
    decreases |fs|
  {
    if |fs| > 2 {
      JoinLast(fs[1..], sep);
      assert fs[..|fs| - 1][1..] == fs[1..][..|fs| - 2];
      assert fs[1..][|fs| - 2] == fs[|fs| - 1];
    }
  }

  /** A character that is neither the separator nor in any field is not in the joined string. */
  lemma {:induction false} JoinAvoids(fs: seq<string>, sep: char, c: char)
    requires c != sep
    requires forall i :: 0 <= i < |fs| ==> c !in fs[i]
    ensures c !in Join(fs, sep)
    decreases |fs|
  {
    if |fs| > 1 {
      JoinAvoids(fs[1..], sep, c);
    }
  }

  /** Splitting a separator-free piece followed by a separator yields that piece as the first field. */
  lemma {:induction false} SplitAfterPiece(a: string, t: string, sep: char)
    requires sep !in a
    ensures Split(a + [sep] + t, sep) == [a] + Split(t, sep)
    decreases |a|
  {
    if a == [] {
      assert a + [sep] + t == [sep] + t;
      assert ([sep] + t)[1..] == t;
    } else {
      var s := a + [sep] + t;
      assert s[1..] == a[1..] + [sep] + t;
      SplitAfterPiece(a[1..], t, sep);
      var rest := Split(s[1..], sep);
      assert rest == [a[1..]] + Split(t, sep);
      assert rest[0] == a[1..] && rest[1..] == Split(t, sep);
      assert s[0] == a[0] != sep;
      assert Split(s, sep) == [[s[0]] + rest[0]] + rest[1..];
      assert [a[0]] + a[1..] == a;
    }
  }

  /** A separator-free string is its own only field. */
  lemma {:induction false} SplitPiece(a: string, sep: char)
    requires sep !in a
    ensures Split(a, sep) == [a]
    decreases |a|
  {
    if a != [] {
      SplitPiece(a[1..], sep);
      assert [a[0]] + a[1..] == a;
    }
  }

  /** Splitting undoes joining whenever no field contains the separator. */
  lemma {:induction false} SplitJoin(fs: seq<string>, sep: char)
    requires |fs| >= 1
    requires forall i :: 0 <= i < |fs| ==> sep !in fs[i]
    ensures Split(Join(fs, sep), sep) == fs
    decreases |fs|
  {
    if |fs| == 1 {
      SplitPiece(fs[0], sep);
    } else {
      SplitJoin(fs[1..], sep);
      SplitAfterPiece(fs[0], Join(fs[1..], sep), sep);
      assert [fs[0]] + fs[1..] == fs;
    }
  }

  /** The number of fields is one more than the number of separators. */
  function Count(s: string, c: char): nat
  {
    if s == [] then 0 else (if s[0] == c then 1 else 0) + Count(s[1..], c)
  }

  lemma {:induction false} SplitFieldCount(s: string, sep: char)
    ensures |Split(s, sep)| == Count(s, sep) + 1
    decreases |s|
  {
    if s != [] {
      SplitFieldCount(s[1..], sep);
    }
  }

  /** p occurs in t starting at position i. */
  predicate OccursAt(t: string, p: string, i: int) {
    0 <= i <= |t| - |p| && t[i..i + |p|] == p
  }

  /** Substring search: p occurs somewhere in t. */
  predicate Contains(t: string, p: string) {
    exists i :: 0 <= i <= |t| - |p| && OccursAt(t, p, i)
  }

  /** An occurrence survives any text added before or after. */
  lemma ContainsWithin(u: string, t: string, v: string, p: string)
    requires Contains(t, p)
    ensures Contains(u + t + v, p)
  {
    var i :| 0 <= i <= |t| - |p| && OccursAt(t, p, i);
    assert t[i..i + |p|] == p;
    var w := u + t + v;
    assert w[|u| + i..|u| + i + |p|] == t[i..i + |p|];
    assert OccursAt(w, p, |u| + i);
  }

  /** Every character of an occurring pattern is a character of the text. */
  lemma ContainsChars(t: string, p: string, c: char)
    requires Contains(t, p)
    requires c in p
    ensures c in t
  {
    var i :| 0 <= i <= |t| - |p| && OccursAt(t, p, i);
    var j :| 0 <= j < |p| && p[j] == c;
    assert t[i + j] == c;
  }
}
