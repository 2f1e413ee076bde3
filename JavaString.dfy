/**
 * The parts of java.lang.String, java.lang.Integer and java.lang.Object that
 * the server relies on, with Java's exact behaviour on edge cases:
 * String.split with a literal delimiter (limit 0), indexOf, contains,
 * endsWith, Integer.parseInt, the decimal rendering of an int,
 * Integer.toHexString and the default toString of a String[].
 */
module JavaString {

  datatype Option<+T> = None | Some(value: T)

  const MinInt: int := -0x8000_0000
  const MaxInt: int := 0x7fff_ffff

  // ---------------------------------------------------------------------
  // indexOf / contains / endsWith
  // ---------------------------------------------------------------------

  /** `d` occurs in `s` starting at index `k`. */
  predicate OccursAt(s: string, d: string, k: nat) {
    k + |d| <= |s| && s[k..k + |d|] == d
  }

  /** The first occurrence of `d` in `s` at or after index `i`. */
  function FindFrom(s: string, d: string, i: nat): (r: Option<nat>)
    requires |d| > 0 && i <= |s|
    ensures r.Some? ==> i <= r.value && OccursAt(s, d, r.value)
    ensures r.Some? ==> forall j :: i <= j < r.value ==> !OccursAt(s, d, j)
    ensures r.None? ==> forall j: nat :: i <= j ==> !OccursAt(s, d, j)
    decreases |s| - i
  {
    if i + |d| > |s| then None
    else if OccursAt(s, d, i) then Some(i)
    else FindFrom(s, d, i + 1)
  }

  /** String.indexOf(d): the first occurrence of `d` in `s`, if any. */
  function Find(s: string, d: string): (r: Option<nat>)
    requires |d| > 0
    ensures r.Some? ==> OccursAt(s, d, r.value)
    ensures r.Some? ==> forall j :: 0 <= j < r.value ==> !OccursAt(s, d, j)
    ensures r.None? ==> forall j: nat :: !OccursAt(s, d, j)
  {
    FindFrom(s, d, 0)
  }

  /** String.contains(d). */
  predicate Contains(s: string, d: string)
    requires |d| > 0
  {
    Find(s, d).Some?
  }

  /** String.endsWith(t). */
  predicate EndsWith(s: string, t: string) {
    |t| <= |s| && s[|s| - |t|..] == t
  }

  /** The first occurrence is unique: an occurrence with none before it is it. */
  lemma FindFirst(s: string, d: string, k: nat)
    requires |d| > 0 && OccursAt(s, d, k)
    requires forall j :: 0 <= j < k ==> !OccursAt(s, d, j)
    ensures Find(s, d) == Some(k)
  {
  }

  /** A string without the delimiter's first character holds no delimiter. */
  lemma FindAbsent(s: string, d: string)
    requires |d| > 0 && d[0] !in s
    ensures Find(s, d) == None
  {
    forall j: nat | j + |d| <= |s|
      ensures !OccursAt(s, d, j)
    {
      assert s[j..j + |d|][0] == s[j];
    }
  }

  /** In `a + d + b`, where `a` lacks the delimiter's first character,
      the first delimiter starts right after `a`. */
  lemma FindAfterFree(a: string, d: string, b: string)
    requires |d| > 0 && d[0] !in a
    ensures Find(a + d + b, d) == Some(|a|)
  {
    var s := a + d + b;
    assert s[|a|..|a| + |d|] == d;
    forall j | 0 <= j < |a|
      ensures !OccursAt(s, d, j)
    {
      assert s[j..j + |d|][0] == s[j] == a[j];
    }
    FindFirst(s, d, |a|);
  }

  // ---------------------------------------------------------------------
  // String.split(d) for a delimiter without regular-expression meaning
  // ---------------------------------------------------------------------

  /** All pieces of `s` between occurrences of `d`, scanning left to right,
      before any trimming: one more piece than there are occurrences. */
  function Fields(s: string, d: string): (r: seq<string>)
    requires |d| > 0
    ensures |r| > 0
    decreases |s|
  {
    match Find(s, d)
    case None => [s]
    case Some(k) => [s[..k]] + Fields(s[k + |d|..], d)
  }

  /** The pieces glued back together with `d` between them. */
  function Join(parts: seq<string>, d: string): string
    decreases |parts|
  {
    if |parts| == 0 then ""
    else if |parts| == 1 then parts[0]
    else parts[0] + d + Join(parts[1..], d)
  }

  /** The line terminator of HTTP messages. */
  const CRLF: string := "\r\n"

  /** Joining a non-empty list after one more piece. */
  lemma JoinCons(p: string, rest: seq<string>, d: string)
    requires |rest| > 0
    ensures Join([p] + rest, d) == p + d + Join(rest, d)
  {
    assert ([p] + rest)[1..] == rest;
  }

  /** Removes the empty strings at the end of a list (split with limit 0). */
  function DropTrailingEmpty(fs: seq<string>): (r: seq<string>)
    ensures |r| <= |fs| && r == fs[..|r|]
    ensures forall i :: |r| <= i < |fs| ==> fs[i] == ""
    ensures |r| > 0 ==> r[|r| - 1] != ""
    decreases |fs|
  {
    if |fs| > 0 && fs[|fs| - 1] == "" then DropTrailingEmpty(fs[..|fs| - 1])
    else fs
  }

  /** Java's `s.split(d)` for a literal delimiter: a string in which `d`
      never occurs gives `[s]` (so `"".split(d)` is `[""]`); otherwise the
      fields with trailing empty strings removed, leading ones kept. */
  function Split(s: string, d: string): seq<string>
    requires |d| > 0
  {
    if Find(s, d).None? then [s] else DropTrailingEmpty(Fields(s, d))
  }

  /** Gluing the fields back together gives the original string. */
  lemma {:induction false} JoinFields(s: string, d: string)
    requires |d| > 0
    ensures Join(Fields(s, d), d) == s
    decreases |s|
  {
    match Find(s, d)
    case None =>
    case Some(k) =>
      var rest := s[k + |d|..];
      JoinFields(rest, d);
      JoinCons(s[..k], Fields(rest, d), d);
      assert s == s[..k] + s[k..k + |d|] + rest;
  }

  /** No field contains the delimiter. */
  lemma {:induction false} FieldsFree(s: string, d: string, i: nat)
    requires |d| > 0 && i < |Fields(s, d)|
    ensures Find(Fields(s, d)[i], d).None?
    decreases |s|
  {
    match Find(s, d)
    case None =>
    case Some(k) =>
      if i == 0 {
        var p := s[..k];
        forall j: nat | j + |d| <= |p|
          ensures !OccursAt(p, d, j)
        {
          assert s[j..j + |d|] == p[j..j + |d|];
          assert j < k;
          assert !OccursAt(s, d, j);
        }
      } else {
        FieldsFree(s[k + |d|..], d, i - 1);
      }
  }

  /** Splitting a join of delimiter-free pieces gives the pieces back. */
  lemma {:induction false} FieldsOfJoin(parts: seq<string>, d: string)
    requires |d| > 0 && |parts| > 0
    requires forall i :: 0 <= i < |parts| ==> d[0] !in parts[i]
    ensures Fields(Join(parts, d), d) == parts
    decreases |parts|
  {
    if |parts| == 1 {
      FindAbsent(parts[0], d);
    } else {
      var p0, tail := parts[0], parts[1..];
      var rest := Join(tail, d);
      var s := p0 + d + rest;
      assert Join(parts, d) == s;
      FindAfterFree(p0, d, rest);
      assert s[..|p0|] == p0;
      assert s[|p0| + |d|..] == rest;
      assert Fields(s, d) == [p0] + Fields(rest, d);
      FieldsOfJoin(tail, d);
      assert parts == [p0] + tail;
    }
  }

  /** Java split of a join of at least two delimiter-free pieces: the
      pieces with the trailing empty ones dropped. */
  lemma SplitOfJoin(parts: seq<string>, d: string)
    requires |d| > 0 && |parts| > 1
    requires forall i :: 0 <= i < |parts| ==> d[0] !in parts[i]
    ensures Split(Join(parts, d), d) == DropTrailingEmpty(parts)
  {
    FindAfterFree(parts[0], d, Join(parts[1..], d));
    FieldsOfJoin(parts, d);
  }

  /** A string without the delimiter splits into itself alone. */
  lemma SplitOfFree(s: string, d: string)
    requires |d| > 0 && d[0] !in s
    ensures Split(s, d) == [s]
  {
    FindAbsent(s, d);
  }

  /** All fields are empty exactly when the string is made of the
      (one-character) delimiter only. */
  lemma {:induction false} FieldsAllEmpty(s: string, c: char)
    ensures (forall i :: 0 <= i < |Fields(s, [c])| ==> Fields(s, [c])[i] == "")
        <==> (forall i :: 0 <= i < |s| ==> s[i] == c)
    decreases |s|
  {
    var fs := Fields(s, [c]);
    match Find(s, [c])
    case None =>
      assert fs == [s];
      if s != "" {
        assert s[0..1] == [s[0]];
        assert !OccursAt(s, [c], 0);
        assert s[0] != c;
        assert fs[0] != "";
        assert !(forall i :: 0 <= i < |s| ==> s[i] == c);
        assert !(forall i :: 0 <= i < |fs| ==> fs[i] == "");
      }
    case Some(k) =>
      var rest := s[k + 1..];
      FieldsAllEmpty(rest, c);
      assert s[k..k + 1][0] == s[k];
      assert fs == [s[..k]] + Fields(rest, [c]);
      if forall i :: 0 <= i < |s| ==> s[i] == c {
        assert s[0..1] == [c];
        assert OccursAt(s, [c], 0);
        assert k == 0;
        forall i | 0 <= i < |rest| ensures rest[i] == c {
          assert rest[i] == s[k + 1 + i];
        }
      }
      if forall i :: 0 <= i < |fs| ==> fs[i] == "" {
        assert fs[0] == s[..k] == "";
        forall i | 0 <= i < |Fields(rest, [c])|
          ensures Fields(rest, [c])[i] == ""
        {
          assert Fields(rest, [c])[i] == fs[i + 1];
        }
        assert s == [s[0]] + rest;
      }
  }

  /** `s.split(c)` is empty exactly when `s` is non-empty and made of `c`
      only; the empty string gives `[""]`. */
  lemma SplitEmptyIff(s: string, c: char)
    ensures Split(s, [c]) == [] <==> s != "" && forall i :: 0 <= i < |s| ==> s[i] == c
    ensures s == "" ==> Split(s, [c]) == [""]
  {
    FieldsAllEmpty(s, c);
    var fs := Fields(s, [c]);
    if s != "" && forall i :: 0 <= i < |s| ==> s[i] == c {
      assert OccursAt(s, [c], 0) by { assert s[0..1] == [s[0]]; }
      var r := DropTrailingEmpty(fs);
      assert r == [];
    }
    if Split(s, [c]) == [] {
      assert Find(s, [c]).Some?;
      assert s != "";
    }
  }

  /** The first element of a split is the text before the first delimiter. */
  lemma SplitHead(s: string, d: string)
    requires |d| > 0 && |Split(s, d)| > 0
    ensures Find(s, d).None? ==> Split(s, d)[0] == s
    ensures Find(s, d).Some? ==> Split(s, d)[0] == s[..Find(s, d).value]
  {
  }

  // ---------------------------------------------------------------------
  // Integers as text
  // ---------------------------------------------------------------------

  predicate IsDigit(c: char) {
    '0' <= c <= '9'
  }

  predicate AllDigits(s: string) {
    forall i :: 0 <= i < |s| ==> IsDigit(s[i])
  }

  /** The value of a string of decimal digits. */
  function DigitsValue(s: string): nat
    requires AllDigits(s)
    decreases |s|
  {
    if s == [] then 0
    else DigitsValue(s[..|s| - 1]) * 10 + (s[|s| - 1] as int - '0' as int)
  }

  /** Integer.parseInt(s) in radix 10 over ASCII digits: an optional sign,
      at least one digit, and a value within the 32-bit range; anything
      else throws NumberFormatException (None). */
  function ParseInt(s: string): (r: Option<int>)
    ensures r.Some? ==> MinInt <= r.value <= MaxInt
  {
    if s == "" then None
    else
      var signed := s[0] == '-' || s[0] == '+';
      var digits := if signed then s[1..] else s;
      if digits == "" || !AllDigits(digits) then None
      else
        var v: int := if s[0] == '-' then -(DigitsValue(digits) as int) else DigitsValue(digits);
        if MinInt <= v <= MaxInt then Some(v) else None
  }

  function DecimalDigit(n: nat): char
    requires n < 10
  {
    ('0' as int + n) as char
  }

  /** The decimal text of a non-negative int (string concatenation `"" + n`). */
  function IntToString(n: nat): (r: string)
    ensures |r| > 0 && AllDigits(r)
    ensures DigitsValue(r) == n
    decreases n
  {
    if n < 10 then [DecimalDigit(n)]
    else
      var r := IntToString(n / 10) + [DecimalDigit(n % 10)];
      assert r[..|r| - 1] == IntToString(n / 10);
      r
  }

  /** Rendering a non-negative int and parsing it back is the identity. */
  lemma ParseIntToString(n: nat)
    requires n <= MaxInt
    ensures ParseInt(IntToString(n)) == Some(n)
  {
    var s := IntToString(n);
    assert IsDigit(s[0]);
  }

  function HexDigit(n: nat): char
    requires n < 16
  {
    "0123456789abcdef"[n]
  }

  /** Integer.toHexString for a non-negative value: lower-case hex digits. */
  function HexString(n: nat): string
    decreases n
  {
    if n < 16 then [HexDigit(n)] else HexString(n / 16) + [HexDigit(n % 16)]
  }

  /** Object.toString() of a String[]: the class name `[Ljava.lang.String;`,
      `@`, and the identity hash code in hex. */
  function StringArrayToString(hash: nat): string {
    "[Ljava.lang.String;@" + HexString(hash)
  }

  /** Hex digits never include a colon. */
  lemma {:induction false} HexStringNoColon(n: nat)
    ensures ':' !in HexString(n)
    decreases n
  {
    if n >= 16 {
      HexStringNoColon(n / 16);
    }
  }

  /** The identity string of an array contains no colon at all, so it
      splits on ": " into itself alone. */
  lemma StringArrayToStringSplit(hash: nat)
    ensures Split(StringArrayToString(hash), ": ") == [StringArrayToString(hash)]
    ensures StringArrayToString(hash)[0] == '['
  {
    HexStringNoColon(hash);
    var s := StringArrayToString(hash);
    assert ':' !in "[Ljava.lang.String;@";
    assert ':' !in s;
    SplitOfFree(s, ": ");
  }
}
