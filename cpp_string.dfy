/** The parts of std::string, <cctype> and <cstdlib> that the service relies on, stated over
    `string` (a sequence of `char`). A position that std::string reports as `npos` is `None`. */
module CppString {

  datatype Option<T> = None | Some(value: T)

  /** Concatenation regrouped. */
  lemma {:induction false} AppendAssoc<T>(a: seq<T>, b: seq<T>, c: seq<T>)
    ensures a + b + c == a + (b + c)
  {
  }

  lemma {:induction false} Regroup<T>(a: seq<T>, b: seq<T>, c: seq<T>, d: seq<T>)
    ensures a + b + c + d == a + (b + (c + d))
  {
  }

  /** Slicing a suffix is slicing the original, shifted. */
  lemma {:induction false} SliceOfSuffix<T>(s: seq<T>, a: nat, i: nat)
    requires a + i <= |s|
    ensures s[a..][..i] == s[a..a + i] && s[a..][i..] == s[a + i..]
  {
  }

  /** A non-empty sequence is its front followed by its last element. */
  lemma {:induction false} FrontLast<T>(xs: seq<T>)
    requires |xs| >= 1
    ensures xs == xs[..|xs| - 1] + [xs[|xs| - 1]]
  {
  }

  /** True when `t` occurs in `s` at position `i`. */
  predicate OccursAt(s: string, t: string, i: nat)
  {
    i + |t| <= |s| && s[i..i + |t|] == t
  }

  /** std::string::find(t, from): the first occurrence of `t` at or after `from`. */
  function Find(s: string, t: string, from: nat): (r: Option<nat>)
    ensures r.Some? ==> from <= r.value && OccursAt(s, t, r.value)
    ensures r.Some? ==> forall j :: from <= j < r.value ==> !OccursAt(s, t, j)
    ensures r.None? ==> forall j :: from <= j ==> !OccursAt(s, t, j)
    decreases |s| - from
  {
    if from + |t| > |s| then None
    else if s[from..from + |t|] == t then Some(from)
    else Find(s, t, from + 1)
  }

  /** std::string::find(c, from) for a single character. */
  function FindChar(s: string, c: char, from: nat): (r: Option<nat>)
    ensures r.Some? ==> from <= r.value < |s| && s[r.value] == c
    ensures r.Some? ==> forall j :: from <= j < r.value ==> s[j] != c
    ensures r.None? ==> forall j :: from <= j < |s| ==> s[j] != c
    decreases |s| - from
  {
    if from >= |s| then None
    else if s[from] == c then Some(from)
    else FindChar(s, c, from + 1)
  }

  predicate Contains(s: string, t: string)
  {
    Find(s, t, 0).Some?
  }

  predicate StartsWith(s: string, prefix: string)
  {
    |prefix| <= |s| && s[..|prefix|] == prefix
  }

  /** std::string::find_first_not_of(cs, from). */
  function FindFirstNotOf(s: string, cs: set<char>, from: nat): (r: Option<nat>)
    ensures r.Some? ==> from <= r.value < |s| && s[r.value] !in cs
    ensures r.Some? ==> forall j :: from <= j < r.value ==> s[j] in cs
    ensures r.None? ==> forall j :: from <= j < |s| ==> s[j] in cs
    decreases |s| - from
  {
    if from >= |s| then None
    else if s[from] !in cs then Some(from)
    else FindFirstNotOf(s, cs, from + 1)
  }

  /** std::string::find_last_not_of(cs). */
  function FindLastNotOf(s: string, cs: set<char>): (r: Option<nat>)
    ensures r.Some? ==> r.value < |s| && s[r.value] !in cs
    ensures r.Some? ==> forall j :: r.value < j < |s| ==> s[j] in cs
    ensures r.None? ==> forall j :: 0 <= j < |s| ==> s[j] in cs
  {
    if |s| == 0 then None
    else if s[|s| - 1] !in cs then Some(|s| - 1)
    else FindLastNotOf(s[..|s| - 1], cs)
  }

  /** The parts separated by `sep`. */
  function Join(parts: seq<string>, sep: string): string
  {
    if |parts| == 0 then ""
    else if |parts| == 1 then parts[0]
    else parts[0] + sep + Join(parts[1..], sep)
  }

  /** The pieces of `s` between the occurrences of `d`, in order; there is always one more
      piece than there are occurrences, and joining them back with `d` gives `s`. */
  function SplitOn(s: string, d: char): (r: seq<string>)
    ensures |r| >= 1
    decreases |s|
  {
    match FindChar(s, d, 0)
    case None => [s]
    case Some(i) => [s[..i]] + SplitOn(s[i + 1..], d)
  }

  /** The pieces hold no delimiter, and joining them with it gives the text back. */
  lemma {:induction false} SplitOnPieces(s: string, d: char)
    ensures forall i :: 0 <= i < |SplitOn(s, d)| ==> d !in SplitOn(s, d)[i]
    ensures Join(SplitOn(s, d), [d]) == s
    decreases |s|
  {
    match FindChar(s, d, 0)
    case None =>
    case Some(i) =>
      var rest := SplitOn(s[i + 1..], d);
      SplitOnPieces(s[i + 1..], d);
      assert SplitOn(s, d) == [s[..i]] + rest;
      assert forall j :: 1 <= j < |SplitOn(s, d)| ==> SplitOn(s, d)[j] == rest[j - 1];
      assert s == s[..i] + [d] + s[i + 1..];
  }

  lemma {:induction false} SplitOnCount(s: string, d: char)
    ensures |SplitOn(s, d)| == multiset(s)[d] + 1
    decreases |s|
  {
    match FindChar(s, d, 0)
    case None =>
      assert d !in s by {
        forall j | 0 <= j < |s| ensures s[j] != d { }
      }
    case Some(i) =>
      var a, b := s[..i], s[i + 1..];
      SplitOnCount(b, d);
      assert multiset(s)[d] == multiset(b)[d] + 1 by {
        assert s == a + [d] + b;
        assert multiset(s) == multiset(a) + multiset([d]) + multiset(b);
        assert d !in a by {
          forall j | 0 <= j < |a| ensures a[j] != d {
            assert a[j] == s[j];
          }
        }
      }
  }

  /** Splitting undoes joining when no part contains the separator. */
  lemma {:induction false} SplitOnJoin(parts: seq<string>, d: char)
    requires |parts| >= 1
    requires forall i :: 0 <= i < |parts| ==> d !in parts[i]
    ensures SplitOn(Join(parts, [d]), d) == parts
    decreases |parts|
  {
    if |parts| == 1 {
      assert FindChar(parts[0], d, 0).None?;
    } else {
      var s := Join(parts, [d]);
      var p := parts[0];
      assert s == p + [d] + Join(parts[1..], [d]);
      assert s[|p|] == d;
      forall j | 0 <= j < |p| ensures s[j] != d {
        assert s[j] == p[j];
      }
      assert FindChar(s, d, 0) == Some(|p|);
      assert s[..|p|] == p;
      assert s[|p| + 1..] == Join(parts[1..], [d]);
      SplitOnJoin(parts[1..], d);
      assert parts == [p] + parts[1..];
    }
  }

  /** The character class of C's isspace() in the "C" locale. */
  predicate IsSpace(c: char)
  {
    c == ' ' || c == '\t' || c == '\n' || c == '\r' || c == '\U{0B}' || c == '\U{0C}'
  }

  predicate IsDigit(c: char)
  {
    '0' <= c <= '9'
  }

  predicate AllDigits(s: string)
  {
    forall i :: 0 <= i < |s| ==> IsDigit(s[i])
  }

  function DigitValue(c: char): nat
    requires IsDigit(c)
  {
    (c as int) - ('0' as int)
  }

  function DigitChar(d: nat): (c: char)
    requires d < 10
    ensures IsDigit(c) && DigitValue(c) == d
  {
    ((('0' as int) + d) as char)
  }

  /** The decimal rendering of `n`, without leading zeros. */
  function Decimal(n: nat): (r: string)
    ensures |r| >= 1 && AllDigits(r)
    decreases n
  {
    if n < 10 then [DigitChar(n)] else Decimal(n / 10) + [DigitChar(n % 10)]
  }

  /** The value of a string of decimal digits. */
  function DigitsValue(ds: string): nat
    requires AllDigits(ds)
  {
    if ds == [] then 0 else DigitsValue(ds[..|ds| - 1]) * 10 + DigitValue(ds[|ds| - 1])
  }

  lemma {:induction false} DecimalValue(n: nat)
    ensures DigitsValue(Decimal(n)) == n
    decreases n
  {
    if n >= 10 {
      DecimalValue(n / 10);
      var ds := Decimal(n);
      assert ds[..|ds| - 1] == Decimal(n / 10);
    }
  }

  /** Length of the longest prefix of `s` made of characters satisfying isspace(). */
  function SpacePrefixLength(s: string): (k: nat)
    ensures k <= |s|
    ensures forall i :: 0 <= i < k ==> IsSpace(s[i])
    ensures k < |s| ==> !IsSpace(s[k])
  {
    if |s| > 0 && IsSpace(s[0]) then 1 + SpacePrefixLength(s[1..]) else 0
  }

  /** Length of the longest prefix of `s` made of decimal digits. */
  function DigitPrefixLength(s: string): (k: nat)
    ensures k <= |s|
    ensures AllDigits(s[..k])
    ensures k < |s| ==> !IsDigit(s[k])
  {
    if |s| > 0 && IsDigit(s[0]) then
      var k := 1 + DigitPrefixLength(s[1..]);
      assert forall i :: 1 <= i < k ==> s[..k][i] == s[1..][..k - 1][i - 1];
      k
    else 0
  }

  lemma {:induction false} DigitPrefixOfDecimal(ds: string, rest: string)
    requires AllDigits(ds)
    requires rest == [] || !IsDigit(rest[0])
    ensures DigitPrefixLength(ds + rest) == |ds|
    decreases |ds|
  {
    if ds != [] {
      DigitPrefixOfDecimal(ds[1..], rest);
      assert (ds + rest)[1..] == ds[1..] + rest;
    } else {
      assert ds + rest == rest;
    }
  }

  /** The decimal number strtol() reads at the front of `s` in base 10 (leading isspace(),
      an optional sign, then at least one digit); None when there is no such number. */
  function LeadingInteger(s: string): Option<int>
  {
    var t := s[SpacePrefixLength(s)..];
    var negative := |t| > 0 && t[0] == '-';
    var u := if |t| > 0 && (t[0] == '-' || t[0] == '+') then t[1..] else t;
    var k := DigitPrefixLength(u);
    if k == 0 then None
    else Some(if negative then -(DigitsValue(u[..k]) as int) else DigitsValue(u[..k]))
  }

  /** C's atoi(): the leading integer, or 0 when there is none. Overflow, which is undefined
      behaviour in C, is not modelled. */
  function Atoi(s: string): int
  {
    match LeadingInteger(s)
    case None => 0
    case Some(v) => v
  }

  /** atoi() reads back a decimal rendering followed by a non-digit. */
  lemma {:induction false} AtoiDecimal(n: nat, rest: string)
    requires rest == [] || !IsDigit(rest[0])
    ensures LeadingInteger(Decimal(n) + rest) == Some(n)
    ensures Atoi(Decimal(n) + rest) == n
  {
    var s := Decimal(n) + rest;
    assert s[0] == Decimal(n)[0];
    assert SpacePrefixLength(s) == 0;
    assert s[0..] == s;
    DigitPrefixOfDecimal(Decimal(n), rest);
    assert s[..|Decimal(n)|] == Decimal(n);
    DecimalValue(n);
  }

  /** The lines std::getline() yields from a text: the pieces between newlines, where a final
      newline does not start another (empty) line. */
  function GetLines(text: string): seq<string>
  {
    var ps := SplitOn(text, '\n');
    if ps[|ps| - 1] == "" then ps[..|ps| - 1] else ps
  }

  /** No line holds a newline. */
  lemma {:induction false} GetLinesNoNewlines(text: string)
    ensures NoNewlines(GetLines(text))
  {
    SplitOnPieces(text, '\n');
    var ps := SplitOn(text, '\n');
    assert forall i :: 0 <= i < |GetLines(text)| ==> GetLines(text)[i] == ps[i];
  }

  /** The text of a file written line by line, each line followed by a newline. */
  function Unlines(lines: seq<string>): string
  {
    if lines == [] then "" else lines[0] + "\n" + Unlines(lines[1..])
  }

  predicate NoNewlines(lines: seq<string>)
  {
    forall i :: 0 <= i < |lines| ==> '\n' !in lines[i]
  }

  lemma {:induction false} UnlinesAsJoin(lines: seq<string>)
    ensures Unlines(lines) == Join(lines + [""], "\n")
    decreases |lines|
  {
    if lines != [] {
      UnlinesAsJoin(lines[1..]);
      assert (lines + [""])[1..] == lines[1..] + [""];
    }
  }

  lemma {:induction false} UnlinesAppend(a: seq<string>, b: seq<string>)
    ensures Unlines(a + b) == Unlines(a) + Unlines(b)
    decreases |a|
  {
    if a != [] {
      UnlinesAppend(a[1..], b);
      assert (a + b)[1..] == a[1..] + b;
    } else {
      assert a + b == b;
    }
  }

  /** Reading back a text written line by line gives the same lines. */
  lemma {:induction false} GetLinesUnlines(lines: seq<string>)
    requires NoNewlines(lines)
    ensures GetLines(Unlines(lines)) == lines
  {
    UnlinesAsJoin(lines);
    var parts := lines + [""];
    assert forall i :: 0 <= i < |parts| ==> '\n' !in parts[i] by {
      forall i | 0 <= i < |parts| ensures '\n' !in parts[i] {
        if i < |lines| { assert parts[i] == lines[i]; }
      }
    }
    SplitOnJoin(parts, '\n');
    assert parts[..|parts| - 1] == lines;
  }

  // The find functions are characterised by their postconditions; these lemmas let a proof
  // name the position it expects.

  lemma {:induction false} FindCharIs(s: string, c: char, from: nat, x: nat)
    requires from <= x < |s| && s[x] == c
    requires forall j :: from <= j < x ==> s[j] != c
    ensures FindChar(s, c, from) == Some(x)
  {
  }

  lemma {:induction false} FindIs(s: string, t: string, from: nat, x: nat)
    requires from <= x && OccursAt(s, t, x)
    requires forall j :: from <= j < x ==> !OccursAt(s, t, j)
    ensures Find(s, t, from) == Some(x)
  {
  }

  lemma {:induction false} FindCharNone(s: string, c: char, from: nat)
    requires forall j :: from <= j < |s| ==> s[j] != c
    ensures FindChar(s, c, from) == None
  {
  }

  lemma {:induction false} FindFirstNotOfIs(s: string, cs: set<char>, from: nat, x: nat)
    requires from <= x < |s| && s[x] !in cs
    requires forall j :: from <= j < x ==> s[j] in cs
    ensures FindFirstNotOf(s, cs, from) == Some(x)
  {
  }

  lemma {:induction false} FindLastNotOfIs(s: string, cs: set<char>, x: nat)
    requires x < |s| && s[x] !in cs
    requires forall j :: x < j < |s| ==> s[j] in cs
    ensures FindLastNotOf(s, cs) == Some(x)
  {
  }
}
