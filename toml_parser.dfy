/** The service's own line-oriented reader and writer for the collector's TOML configuration
    files, over a two-level map section -> key -> raw value text. */
module TomlParser {
  import opened CppString
  import opened Unordered

  /** tomlSectionObject: config parameter -> raw config value text. */
  type Section = map<string, string>

  /** tomlObject: section name -> its parameters. */
  type TomlObject = map<string, Section>

  // ---------------------------------------------------------------------------------------
  // trim_string: only the space character ' ' is trimmed.

  function Spaces(n: nat): (r: string)
    ensures |r| == n && forall i :: 0 <= i < n ==> r[i] == ' '
  {
    seq(n, _ => ' ')
  }

  predicate AllSpaces(s: string)
  {
    forall i :: 0 <= i < |s| ==> s[i] == ' '
  }

  /** Neither starts nor ends with a space. */
  predicate Unpadded(s: string)
  {
    s == [] || (s[0] != ' ' && s[|s| - 1] != ' ')
  }

  /** `s` with its leading and trailing spaces removed. */
  function TrimSpaces(s: string): (r: string)
    ensures Unpadded(r)
    ensures |r| <= |s|
    decreases |s|
  {
    if |s| > 0 && s[0] == ' ' then TrimSpaces(s[1..])
    else if |s| > 0 && s[|s| - 1] == ' ' then TrimSpaces(s[..|s| - 1])
    else s
  }

  /** The unique decomposition: a text made of spaces, an unpadded core and spaces trims to
      that core. */
  lemma {:induction false} TrimSpacesOf(lead: nat, core: string, trail: nat)
    requires Unpadded(core)
    ensures TrimSpaces(Spaces(lead) + core + Spaces(trail)) == core
    decreases lead + trail
  {
    var s := Spaces(lead) + core + Spaces(trail);
    if lead > 0 {
      assert s[1..] == Spaces(lead - 1) + core + Spaces(trail);
      TrimSpacesOf(lead - 1, core, trail);
    } else if trail > 0 {
      assert s == core + Spaces(trail);
      if core == [] {
        assert s[1..] == Spaces(0) + core + Spaces(trail - 1);
        assert s[0] == ' ';
      } else {
        assert s[0] == core[0];
      }
      assert s[..|s| - 1] == Spaces(0) + core + Spaces(trail - 1);
      TrimSpacesOf(0, core, trail - 1);
    } else {
      assert s == core;
    }
  }

  /** ... and every text has that decomposition, so trimming is exactly "strip the spaces
      around an unpadded core". */
  lemma {:induction false} TrimSpacesFrames(s: string)
    ensures exists lead: nat, trail: nat :: s == Spaces(lead) + TrimSpaces(s) + Spaces(trail)
    decreases |s|
  {
    if |s| > 0 && s[0] == ' ' {
      TrimSpacesFrames(s[1..]);
      var lead: nat, trail: nat :| s[1..] == Spaces(lead) + TrimSpaces(s[1..]) + Spaces(trail);
      SpaceInFront(s, lead, TrimSpaces(s[1..]), trail);
    } else if |s| > 0 && s[|s| - 1] == ' ' {
      TrimSpacesFrames(s[..|s| - 1]);
      var lead: nat, trail: nat :| s[..|s| - 1] == Spaces(lead) + TrimSpaces(s[..|s| - 1]) + Spaces(trail);
      SpaceBehind(s, lead, TrimSpaces(s[..|s| - 1]), trail);
    } else {
      assert s == Spaces(0) + TrimSpaces(s) + Spaces(0);
    }
  }

  lemma {:induction false} SpaceInFront(s: string, lead: nat, core: string, trail: nat)
    requires |s| > 0 && s[0] == ' ' && s[1..] == Spaces(lead) + core + Spaces(trail)
    ensures s == Spaces(lead + 1) + core + Spaces(trail)
  {
    assert Spaces(lead + 1) == [' '] + Spaces(lead);
    assert s == [' '] + s[1..];
  }

  lemma {:induction false} SpaceBehind(s: string, lead: nat, core: string, trail: nat)
    requires |s| > 0 && s[|s| - 1] == ' ' && s[..|s| - 1] == Spaces(lead) + core + Spaces(trail)
    ensures s == Spaces(lead) + core + Spaces(trail + 1)
  {
    assert Spaces(trail + 1) == Spaces(trail) + [' '];
    assert s == s[..|s| - 1] + [' '];
  }

  /** An empty or all-space text trims to the empty string, and nothing else does. */
  lemma {:induction false} TrimSpacesEmpty(s: string)
    ensures TrimSpaces(s) == "" <==> AllSpaces(s)
  {
    TrimSpacesFrames(s);
    var lead: nat, trail: nat :| s == Spaces(lead) + TrimSpaces(s) + Spaces(trail);
    if AllSpaces(s) {
      assert s == Spaces(|s|) + "" + Spaces(0);
      TrimSpacesOf(|s|, "", 0);
    }
    if TrimSpaces(s) == "" {
      assert s == Spaces(lead) + Spaces(trail);
    }
  }

  /** Trimming twice is trimming once. */
  lemma {:induction false} TrimSpacesIdempotent(s: string)
    ensures TrimSpaces(TrimSpaces(s)) == TrimSpaces(s)
  {
    var t := TrimSpaces(s);
    assert t == Spaces(0) + t + Spaces(0);
    TrimSpacesOf(0, t, 0);
  }

  /** trim_string(str, first, last): trims the spaces of str[first..last]; an index range that
      does not overlap the text, or is empty, gives "". Indices outside the text on the other
      side would read out of bounds, which callers never do. */
  method TrimStringRange(str: string, first: int, last: int) returns (r: string)
    requires first >= |str| || last < 0 || (0 <= first && last < |str|)
    ensures r == if first >= |str| || last < 0 || first > last then "" else TrimSpaces(str[first..last + 1])
  {
    var n := |str|;
    if first >= n || last < 0 {
      return "";
    }
    var f, l := first, last;
    while f < n && str[f] == ' '
      invariant first <= f <= n
      invariant forall i :: first <= i < f ==> str[i] == ' '
    {
      f := f + 1;
    }
    while l >= 0 && str[l] == ' '
      invariant -1 <= l <= last
      invariant forall i :: l < i <= last ==> str[i] == ' '
    {
      l := l - 1;
    }
    TrimmedRange(str, first, last, f, l);
    if f > l {
      return "";
    }
    r := str[f..l + 1];
  }

  /** What the two scans of trim_string leave: the range between the first and the last
      character that is no space, or nothing when they cross. */
  lemma {:induction false} TrimmedRange(str: string, first: nat, last: int, f: int, l: int)
    requires first <= f <= |str| && -1 <= l <= last < |str|
    requires forall i :: first <= i < f ==> str[i] == ' '
    requires forall i :: l < i <= last ==> str[i] == ' '
    requires f < |str| ==> str[f] != ' '
    requires l >= 0 ==> str[l] != ' '
    ensures f > l && first <= last ==> TrimSpaces(str[first..last + 1]) == ""
    ensures f <= l ==> 0 <= f && l < |str| && first <= last && TrimSpaces(str[first..last + 1]) == str[f..l + 1]
  {
    if f > l && first <= last {
      var range := str[first..last + 1];
      assert range == Spaces(|range|) + "" + Spaces(0);
      TrimSpacesOf(|range|, "", 0);
    } else if f <= l {
      SpacePadded(str, first, f, l, last);
      TrimSpacesOf(f - first, str[f..l + 1], last - l);
    }
  }

  /** A range whose ends are spaces is its middle padded with them. */
  lemma {:induction false} SpacePadded(str: string, first: nat, f: nat, l: nat, last: nat)
    requires first <= f <= l < last + 1 <= |str|
    requires forall i :: first <= i < f ==> str[i] == ' '
    requires forall i :: l < i <= last ==> str[i] == ' '
    ensures str[first..last + 1] == Spaces(f - first) + str[f..l + 1] + Spaces(last - l)
  {
    var a, b := str[first..last + 1], Spaces(f - first) + str[f..l + 1] + Spaces(last - l);
    assert |a| == |b|;
    forall k | 0 <= k < |a| ensures a[k] == b[k] {
      assert a[k] == str[first + k];
      if k < f - first {
      } else if k <= l - first {
        assert b[k] == str[f..l + 1][k - (f - first)];
      } else {
        assert b[k] == Spaces(last - l)[k - (l + 1 - first)];
      }
    }
  }

  /** trim_string(str): the text without its leading and trailing spaces. */
  method TrimString(str: string) returns (r: string)
    ensures r == TrimSpaces(str)
  {
    r := TrimStringRange(str, 0, |str| - 1);
    if |str| == 0 {
      TrimSpacesEmpty(str);
    } else {
      assert str[0..|str|] == str;
    }
  }

  // ---------------------------------------------------------------------------------------
  // removeAllSpaces / _removeAllSpaces

  /** removeAllSpaces: every ' ' deleted, every other character kept in order. */
  function RemoveAllSpaces(s: string): (r: string)
    ensures ' ' !in r
    ensures |r| <= |s|
  {
    if s == [] then ""
    else RemoveAllSpaces(s[..|s| - 1]) + (if s[|s| - 1] == ' ' then "" else [s[|s| - 1]])
  }

  /** Exactly the spaces are removed: every other character keeps its number of occurrences. */
  lemma {:induction false} RemoveAllSpacesMultiset(s: string)
    ensures multiset(RemoveAllSpaces(s)) == multiset(s)[' ' := 0]
    decreases |s|
  {
    if s != [] {
      var init, c := s[..|s| - 1], s[|s| - 1];
      RemoveAllSpacesMultiset(init);
      assert multiset(s) == multiset(init) + multiset{c} by {
        FrontLast(s);
      }
    }
  }

  lemma {:induction false} RemoveAllSpacesAppend(a: string, b: string)
    ensures RemoveAllSpaces(a + b) == RemoveAllSpaces(a) + RemoveAllSpaces(b)
    decreases |b|
  {
    if b == [] {
      assert a + b == a;
    } else {
      var binit := b[..|b| - 1];
      assert (a + b)[..|a + b| - 1] == a + binit;
      RemoveAllSpacesAppend(a, binit);
    }
  }

  /** A text without spaces is left as it is. */
  lemma {:induction false} RemoveAllSpacesNoSpaces(s: string)
    requires ' ' !in s
    ensures RemoveAllSpaces(s) == s
    decreases |s|
  {
    if s != [] {
      var init := s[..|s| - 1];
      assert ' ' !in init by {
        forall i | 0 <= i < |init| ensures init[i] != ' ' {
          assert init[i] == s[i];
        }
      }
      RemoveAllSpacesNoSpaces(init);
      assert s == init + [s[|s| - 1]];
    }
  }

  /** Removing the spaces twice is removing them once. */
  lemma {:induction false} RemoveAllSpacesIdempotent(s: string)
    ensures RemoveAllSpaces(RemoveAllSpaces(s)) == RemoveAllSpaces(s)
  {
    RemoveAllSpacesNoSpaces(RemoveAllSpaces(s));
  }

  /** _removeAllSpaces(str): compacts the text in place with a write cursor; the text then ends
      at the returned length. */
  method RemoveAllSpacesInPlace(a: array<char>) returns (len: nat)
    modifies a
    ensures len <= a.Length
    ensures a[..len] == RemoveAllSpaces(old(a[..]))
  {
    ghost var s := a[..];
    var pos := 0;
    var i := 0;
    while i < a.Length
      invariant 0 <= pos <= i <= a.Length
      invariant a[..pos] == RemoveAllSpaces(s[..i])
      invariant forall k :: i <= k < a.Length ==> a[k] == s[k]
    {
      assert s[..i + 1][..i] == s[..i];
      if a[i] != ' ' {
        a[pos] := a[i];
        assert a[..pos + 1] == RemoveAllSpaces(s[..i]) + [s[i]];
        pos := pos + 1;
      }
      i := i + 1;
    }
    assert s[..i] == s;
    len := pos;
  }

  // ---------------------------------------------------------------------------------------
  // parseConfigValue

  function DropLast(s: string): string
  {
    if s == "" then "" else s[..|s| - 1]
  }

  /** The elements of the text after an opening bracket: the pieces between commas, the last
      one without its final character (the closing bracket). */
  function BracketElements(t: string): (r: seq<string>)
    ensures |r| >= 1
  {
    var ps := SplitOn(t, ',');
    ps[..|ps| - 1] + [DropLast(ps[|ps| - 1])]
  }

  /** The elements of a space-free config value: a bracketed list yields its comma-separated
      elements, anything else (the empty text too) is a single element. */
  function ConfigValueElements(s: string): (r: seq<string>)
    ensures |r| >= 1
  {
    if |s| == 0 || s[0] != '[' then [s] else BracketElements(s[1..])
  }

  lemma {:induction false} FindCharShift(s: string, c: char, k: nat)
    requires k <= |s|
    ensures FindChar(s, c, k).None? <==> FindChar(s[k..], c, 0).None?
    ensures FindChar(s, c, k).Some? ==> FindChar(s[k..], c, 0) == Some(FindChar(s, c, k).value - k)
  {
    var a, b := FindChar(s, c, k), FindChar(s[k..], c, 0);
    if a.Some? {
      assert s[k..][a.value - k] == c;
      if b.Some? {
        assert s[k + b.value] == c;
      }
    }
  }

  lemma {:induction false} BracketElementsStep(t: string, i: nat)
    requires FindChar(t, ',', 0) == Some(i)
    ensures BracketElements(t) == [t[..i]] + BracketElements(t[i + 1..])
  {
    var rest := SplitOn(t[i + 1..], ',');
    assert SplitOn(t, ',') == [t[..i]] + rest;
  }

  /** parseConfigValue(str): removes the spaces of `str` (the caller's string is changed too,
      returned here as `strAfter`) and splits the result into its elements. */
  method ParseConfigValue(str: string) returns (ret: seq<string>, strAfter: string)
    ensures strAfter == RemoveAllSpaces(str)
    ensures ret == ConfigValueElements(strAfter)
  {
    var a := new char[|str|](i requires 0 <= i < |str| => str[i]);
    assert a[..] == str;
    var len := RemoveAllSpacesInPlace(a);
    strAfter := a[..len];
    if |strAfter| == 0 || strAfter[0] != '[' {
      return [strAfter], strAfter;
    }
    ret := SplitElements(strAfter);
  }

  /** The comma loop of parseConfigValue, from just after the opening bracket. */
  /** Without a further comma the rest is one element, its last character (the closing
      bracket) dropped. */
  lemma {:induction false} LastElement(s: string, prev: nat)
    requires prev <= |s| && FindChar(s, ',', prev).None?
    ensures BracketElements(s[prev..]) == [if prev < |s| then s[prev..|s| - 1] else ""]
  {
    FindCharShift(s, ',', prev);
    var t := s[prev..];
    assert SplitOn(t, ',') == [t];
    assert DropLast(t) == if prev < |s| then s[prev..|s| - 1] else "";
  }

  method SplitElements(s: string) returns (ret: seq<string>)
    requires |s| > 0 && s[0] == '['
    ensures ret == BracketElements(s[1..])
  {
    ret := [];
    var prev := 1;
    while true
      invariant 1 <= prev <= |s|
      invariant ret + BracketElements(s[prev..]) == BracketElements(s[1..])
      decreases |s| - prev
    {
      var pos := FindChar(s, ',', prev);
      if pos.None? {
        break;
      }
      SplitStep(s, prev, pos.value);
      AppendAssoc(ret, [s[prev..pos.value]], BracketElements(s[pos.value + 1..]));
      ret := ret + [s[prev..pos.value]];
      prev := pos.value + 1;
    }
    var last := if prev < |s| then s[prev..|s| - 1] else "";
    LastElement(s, prev);
    ret := ret + [last];
  }

  lemma {:induction false} SplitStep(s: string, prev: nat, pos: nat)
    requires prev <= |s| && FindChar(s, ',', prev) == Some(pos)
    ensures pos < |s|
    ensures BracketElements(s[prev..]) == [s[prev..pos]] + BracketElements(s[pos + 1..])
  {
    CommaShift(s, prev, pos);
    BracketElementsStep(s[prev..], pos - prev);
  }

  lemma {:induction false} CommaShift(s: string, prev: nat, pos: nat)
    requires prev <= |s| && FindChar(s, ',', prev) == Some(pos)
    ensures prev <= pos < |s|
    ensures FindChar(s[prev..], ',', 0) == Some(pos - prev)
    ensures s[prev..][..pos - prev] == s[prev..pos] && s[prev..][pos - prev + 1..] == s[pos + 1..]
  {
    FindCharShift(s, ',', prev);
  }

  /** A bracketed value has exactly one element more than it has commas. */
  lemma {:induction false} ConfigValueElementCount(s: string)
    requires |s| > 0 && s[0] == '['
    ensures |ConfigValueElements(s)| == multiset(s)[','] + 1
  {
    SplitOnCount(s[1..], ',');
    assert s == [s[0]] + s[1..];
  }

  lemma {:induction false} JoinAppendLast(parts: seq<string>, sep: string, t: string)
    requires |parts| >= 1
    ensures Join(parts, sep) + t == Join(parts[..|parts| - 1] + [parts[|parts| - 1] + t], sep)
    decreases |parts|
  {
    var q := parts[..|parts| - 1] + [parts[|parts| - 1] + t];
    if |parts| == 1 {
      assert q == [parts[0] + t];
    } else {
      JoinAppendLast(parts[1..], sep, t);
      assert q[1..] == parts[1..][..|parts| - 2] + [parts[|parts| - 1] + t];
      var x, rest := parts[0], Join(parts[1..], sep);
      assert Join(parts, sep) == x + sep + rest;
      Regroup(x, sep, rest, t);
      assert q[0] == x;
      assert Join(q, sep) == x + sep + Join(q[1..], sep);
      AppendAssoc(x, sep, rest + t);
    }
  }

  /** Parsing the bracketed list of some comma-free elements gives those elements back. */
  lemma {:induction false} ConfigValueRoundTrip(es: seq<string>)
    requires |es| >= 1
    requires forall i :: 0 <= i < |es| ==> ',' !in es[i]
    ensures ConfigValueElements("[" + Join(es, ",") + "]") == es
  {
    var n := |es|;
    var parts := es[..n - 1] + [es[n - 1] + "]"];
    var s := "[" + Join(es, ",") + "]";
    BracketedTail(es);
    CommaFreeParts(es);
    SplitOnJoin(parts, ',');
    assert BracketElements(s[1..]) == es by {
      assert DropLast(es[n - 1] + "]") == es[n - 1];
      FrontLast(es);
    }
  }

  lemma {:induction false} BracketedTail(es: seq<string>)
    requires |es| >= 1
    ensures ("[" + Join(es, ",") + "]")[1..] == Join(es[..|es| - 1] + [es[|es| - 1] + "]"], [','])
  {
    var s := "[" + Join(es, ",") + "]";
    JoinAppendLast(es, ",", "]");
    assert s == "[" + (Join(es, ",") + "]");
  }

  lemma {:induction false} CommaFreeParts(es: seq<string>)
    requires |es| >= 1
    requires forall i :: 0 <= i < |es| ==> ',' !in es[i]
    ensures var parts := es[..|es| - 1] + [es[|es| - 1] + "]"];
      forall i :: 0 <= i < |parts| ==> ',' !in parts[i]
  {
    var n := |es|;
    var parts := es[..n - 1] + [es[n - 1] + "]"];
    forall i | 0 <= i < |parts| ensures ',' !in parts[i] {
      if i < n - 1 {
        assert parts[i] == es[i];
      } else {
        assert ',' !in es[n - 1];
      }
    }
  }

  // ---------------------------------------------------------------------------------------
  // fixDoubleForwardSlash and toStringArr

  /** The four characters \/\/ that JSON output uses for an escaped "//". */
  const EscapedDoubleSlash: string := ['\\', '/', '\\', '/']

  /** fixDoubleForwardSlash: the first \/\/ (and only the first) becomes //; the text around
      it is kept verbatim. */
  function FixDoubleForwardSlash(str: string): (r: string)
    ensures Find(str, EscapedDoubleSlash, 0).None? ==> r == str
    ensures Find(str, EscapedDoubleSlash, 0).Some? ==>
      var p := Find(str, EscapedDoubleSlash, 0).value;
      |r| == |str| - 2 && r[..p] == str[..p] && r[p..p + 2] == "//" && r[p + 2..] == str[p + 4..]
  {
    match Find(str, EscapedDoubleSlash, 0)
    case None => str
    case Some(p) => str[..p] + "//" + str[p + 4..]
  }

  /** Only the first occurrence is replaced: a second one right after it survives. */
  lemma {:induction false} FixDoubleForwardSlashFirstOnly()
    ensures FixDoubleForwardSlash(EscapedDoubleSlash + EscapedDoubleSlash) == "//" + EscapedDoubleSlash
  {
    assert OccursAt(EscapedDoubleSlash + EscapedDoubleSlash, EscapedDoubleSlash, 0);
  }

  /** All elements with their first \/\/ fixed. */
  function FixAll(vs: seq<string>): (r: seq<string>)
    ensures |r| == |vs|
  {
    if vs == [] then [] else FixAll(vs[..|vs| - 1]) + [FixDoubleForwardSlash(vs[|vs| - 1])]
  }

  lemma {:induction false} FixAllAt(vs: seq<string>, i: nat)
    requires i < |vs|
    ensures FixAll(vs)[i] == FixDoubleForwardSlash(vs[i])
    decreases |vs|
  {
    if i < |vs| - 1 {
      FixAllAt(vs[..|vs| - 1], i);
    }
  }

  /** The text toStringArr builds from the JSON texts of an array's elements. */
  function ArrayText(vs: seq<string>): string
  {
    if vs == [] then "]" else "[" + Join(FixAll(vs), ",") + "]"
  }

  /** Each element followed by a comma. */
  function Terminated(xs: seq<string>, t: string): string
  {
    if xs == [] then "" else Terminated(xs[..|xs| - 1], t) + xs[|xs| - 1] + t
  }

  lemma {:induction false} TerminatedSnoc(xs: seq<string>, x: string, t: string)
    ensures Terminated(xs + [x], t) == Terminated(xs, t) + (x + t)
  {
    assert (xs + [x])[..|xs|] == xs;
  }

  lemma {:induction false} TerminatedJoin(xs: seq<string>, t: string)
    requires |xs| >= 1
    ensures Terminated(xs, t) == Join(xs, t) + t
    decreases |xs|
  {
    if |xs| > 1 {
      var init := xs[..|xs| - 1];
      TerminatedJoin(init, t);
      JoinSnoc(init, xs[|xs| - 1], t);
      assert init + [xs[|xs| - 1]] == xs;
    }
  }

  lemma {:induction false} JoinSnoc(parts: seq<string>, x: string, sep: string)
    requires |parts| >= 1
    ensures Join(parts + [x], sep) == Join(parts, sep) + sep + x
    decreases |parts|
  {
    if |parts| > 1 {
      JoinSnoc(parts[1..], x, sep);
      assert (parts + [x])[1..] == parts[1..] + [x];
    } else {
      assert (parts + [x])[1..] == [x];
    }
  }

  /** toStringArr: the array's element texts, each with its first \/\/ fixed, between brackets
      and separated by commas; the closing bracket overwrites the last character, so an empty
      array gives "]". */
  method ToStringArr(values: seq<string>) returns (cvalue: string)
    ensures cvalue == ArrayText(values)
  {
    cvalue := "[";
    var i := 0;
    while i < |values|
      invariant 0 <= i <= |values|
      invariant cvalue == "[" + Terminated(FixAll(values[..i]), ",")
    {
      ghost var done := FixAll(values[..i]);
      var fixed := FixDoubleForwardSlash(values[i]);
      assert FixAll(values[..i + 1]) == done + [fixed] by {
        assert values[..i + 1][..i] == values[..i];
      }
      TerminatedSnoc(done, fixed, ",");
      cvalue := cvalue + fixed;
      cvalue := cvalue + ",";
      Regroup("[", Terminated(done, ","), fixed, ",");
      i := i + 1;
    }
    assert values[..i] == values;
    ArrayTextPatched(values);
    cvalue := cvalue[|cvalue| - 1 := ']'];
  }

  lemma {:induction false} ArrayTextPatched(values: seq<string>)
    ensures var t := "[" + Terminated(FixAll(values), ","); t[|t| - 1 := ']'] == ArrayText(values)
  {
    var fs := FixAll(values);
    if values != [] {
      TerminatedJoin(fs, ",");
      var j := Join(fs, ",");
      PatchLast("[" + j, ',', ']');
    }
  }

  /** Overwriting the last character of a text. */
  lemma {:induction false} PatchLast(t: string, c: char, d: char)
    ensures var u := t + [c]; u[|u| - 1 := d] == t + [d]
  {
  }

  /** An empty array is rendered as a lone closing bracket, which reads back as that single
      one-character element rather than as an empty list. */
  lemma {:induction false} EmptyArrayText()
    ensures ArrayText([]) == "]"
    ensures ConfigValueElements(ArrayText([])) == ["]"]
  {
  }

  /** A non-empty array written by toStringArr reads back through parseConfigValue as its
      (fixed) element texts, as long as those contain no comma and no space. */
  lemma {:induction false} ArrayTextParsesBack(values: seq<string>)
    requires |values| >= 1
    requires forall i :: 0 <= i < |values| ==> ',' !in FixDoubleForwardSlash(values[i]) && ' ' !in FixDoubleForwardSlash(values[i])
    ensures ConfigValueElements(RemoveAllSpaces(ArrayText(values))) == FixAll(values)
  {
    var fs := FixAll(values);
    forall i | 0 <= i < |fs| ensures ',' !in fs[i] && ' ' !in fs[i] {
      FixAllAt(values, i);
    }
    BracketedListReadsBack(fs);
  }

  lemma {:induction false} BracketedListReadsBack(fs: seq<string>)
    requires |fs| >= 1
    requires forall i :: 0 <= i < |fs| ==> ',' !in fs[i] && ' ' !in fs[i]
    ensures ConfigValueElements(RemoveAllSpaces("[" + Join(fs, ",") + "]")) == fs
  {
    var t := "[" + Join(fs, ",") + "]";
    assert ' ' !in t by {
      JoinNoChar(fs, ",", ' ');
    }
    RemoveAllSpacesNoSpaces(t);
    ConfigValueRoundTrip(fs);
  }

  lemma {:induction false} JoinNoChar(parts: seq<string>, sep: string, c: char)
    requires c !in sep
    requires forall i :: 0 <= i < |parts| ==> c !in parts[i]
    ensures c !in Join(parts, sep)
    decreases |parts|
  {
    if |parts| > 1 {
      JoinNoChar(parts[1..], sep, c);
    }
  }

  // ---------------------------------------------------------------------------------------
  // readTomlFile

  /** How readTomlFile treats one line. */
  datatype LineKind =
    | Skip                                  // blank, or a comment
    | Header(name: string)                  // starts a section
    | KeyValue(key: string, value: string)  // one parameter of the current section
    | Malformed                             // anything else: the whole read yields nothing

  const HeaderOpen: set<char> := {'[', ' '}
  const HeaderClose: set<char> := {']', ' '}

  /** A line on which readTomlFile does not throw: a header line must have some character other
      than '[' and ' ' after its opening bracket, or taking its name would start past the end
      of the line (std::out_of_range). */
  predicate LineReadable(line: string)
  {
    match FindFirstNotOf(line, {' '}, 0)
    case None => true
    case Some(p) => line[p] != '[' || FindFirstNotOf(line, HeaderOpen, p + 1).Some?
  }

  predicate AllReadable(lines: seq<string>)
  {
    forall i :: 0 <= i < |lines| ==> LineReadable(lines[i])
  }

  predicate TomlReadable(text: string)
  {
    AllReadable(GetLines(text))
  }

  /** The section name of a header line whose first non-space character, at `pos`, is '[':
      from the first character after it that is neither '[' nor ' ' to the last character of
      the line that is neither ']' nor ' '. When the latter comes before the former the length
      std::string::substr receives wraps around, and the name runs to the end of the line. */
  function HeaderName(line: string, pos: nat): string
    requires pos < |line| && line[pos] == '['
    requires FindFirstNotOf(line, HeaderOpen, pos + 1).Some?
  {
    var sb := FindFirstNotOf(line, HeaderOpen, pos + 1).value;
    var se := match FindLastNotOf(line, HeaderClose) case Some(e) => e case None => pos;
    if se + 1 >= sb then line[sb..se + 1] else line[sb..]
  }

  function Classify(line: string): LineKind
    requires LineReadable(line)
  {
    match FindFirstNotOf(line, {' '}, 0)
    case None => Skip
    case Some(pos) =>
      if line[pos] == '#' then Skip
      else if line[pos] == '[' then Header(HeaderName(line, pos))
      else match FindChar(line, '=', 0)
        case None => Malformed
        case Some(e) => KeyValue(TrimSpaces(line[..e]), RemoveAllSpaces(line[e + 1..]))
  }

  /** The reader's state between lines: what has been read and the current section. */
  datatype ReadState = ReadState(ret: TomlObject, section: string)

  const InitialState: ReadState := ReadState(map[], "")

  function SectionOf(obj: TomlObject, name: string): Section
  {
    if name in obj then obj[name] else map[]
  }

  /** One line's effect: a header resets its section to empty and makes it current, a
      parameter is set in the current section (creating it), a malformed line ends the read. */
  function ApplyLine(st: ReadState, line: string): Option<ReadState>
    requires LineReadable(line)
  {
    match Classify(line)
    case Skip => Some(st)
    case Header(name) => Some(ReadState(st.ret[name := map[]], name))
    case KeyValue(k, v) => Some(ReadState(st.ret[st.section := SectionOf(st.ret, st.section)[k := v]], st.section))
    case Malformed => None
  }

  /** The state after reading `lines`, or None when a malformed line was met. */
  function ReadLines(st: ReadState, lines: seq<string>): Option<ReadState>
    requires AllReadable(lines)
    decreases |lines|
  {
    if lines == [] then Some(st)
    else match ApplyLine(st, lines[0])
      case None => None
      case Some(st') => ReadLines(st', lines[1..])
  }

  /** What readTomlFile returns for a file with the given content (None: the file cannot be
      opened). */
  function ReadToml(content: Option<string>): TomlObject
    requires content.Some? ==> TomlReadable(content.value)
  {
    match content
    case None => map[]
    case Some(text) =>
      match ReadLines(InitialState, GetLines(text))
      case None => map[]
      case Some(st) => st.ret
  }

  /** Reading from line i on is applying line i, then reading from line i + 1 on. */
  lemma {:induction false} ReadLinesStep(st: ReadState, lines: seq<string>, i: nat)
    requires AllReadable(lines) && i < |lines|
    ensures AllReadable(lines[i..]) && AllReadable(lines[i + 1..]) && LineReadable(lines[i])
    ensures ReadLines(st, lines[i..]) == match ApplyLine(st, lines[i])
      case None => None
      case Some(st') => ReadLines(st', lines[i + 1..])
  {
    assert lines[i..][0] == lines[i] && lines[i..][1..] == lines[i + 1..];
  }

  /** readTomlFile(filePath), with the file's content (None when it cannot be opened). */
  method ReadTomlFile(content: Option<string>) returns (ret: TomlObject)
    requires content.Some? ==> TomlReadable(content.value)
    ensures ret == ReadToml(content)
  {
    ret := map[];
    if content.None? {
      return;
    }
    var lines := GetLines(content.value);
    var section := "";
    var i := 0;
    while i < |lines|
      invariant 0 <= i <= |lines|
      invariant ReadLines(ReadState(ret, section), lines[i..]) == ReadLines(InitialState, lines)
    {
      ReadLinesStep(ReadState(ret, section), lines, i);
      var next := ReadTomlLine(ret, section, lines[i]);
      if next.None? {
        ret := map[];
        break;
      }
      ret, section := next.value.ret, next.value.section;
      i := i + 1;
    }
  }

  /** One pass of readTomlFile's loop: a blank or comment line is skipped, a header starts
      its section afresh, a parameter line sets a key of the current section, and any other
      line clears what was read and ends the loop (None). */
  method ReadTomlLine(ret: TomlObject, section: string, line: string) returns (next: Option<ReadState>)
    requires LineReadable(line)
    ensures next == ApplyLine(ReadState(ret, section), line)
  {
    var pos := FindFirstNotOf(line, {' '}, 0);
    if pos.None? || line[pos.value] == '#' {
      assert Classify(line) == Skip;
      return Some(ReadState(ret, section));
    }
    if line[pos.value] == '[' {
      assert Classify(line) == Header(HeaderName(line, pos.value));
      var name := HeaderName(line, pos.value);
      return Some(ReadState(ret[name := map[]], name));
    }
    var equalPos := FindChar(line, '=', 0);
    if equalPos.None? {
      assert Classify(line) == Malformed;
      return None;
    }
    var e: int := equalPos.value;
    var configParam := TrimStringRange(line, 0, e - 1);
    assert configParam == TrimSpaces(line[..e]) by {
      assert line[0..e] == line[..e];
      if e == 0 {
        assert TrimSpaces(line[..e]) == "";
      }
    }
    var value := RemoveAllSpaces(line[e + 1..]);
    assert Classify(line) == KeyValue(configParam, value);
    var current := if section in ret then ret[section] else map[];
    return Some(ReadState(ret[section := current[configParam := value]], section));
  }

  lemma {:induction false} ReadLinesAppend(st: ReadState, a: seq<string>, b: seq<string>)
    requires AllReadable(a) && AllReadable(b)
    ensures AllReadable(a + b)
    ensures ReadLines(st, a + b) == match ReadLines(st, a) case None => None case Some(s) => ReadLines(s, b)
    decreases |a|
  {
    assert AllReadable(a + b) by {
      forall i | 0 <= i < |a + b| ensures LineReadable((a + b)[i]) {
        if i < |a| { assert (a + b)[i] == a[i]; } else { assert (a + b)[i] == b[i - |a|]; }
      }
    }
    if a == [] {
      assert a + b == b;
    } else {
      assert (a + b)[0] == a[0];
      assert (a + b)[1..] == a[1..] + b;
      match ApplyLine(st, a[0])
      case None =>
      case Some(st') => ReadLinesAppend(st', a[1..], b);
    }
  }

  /** A malformed line anywhere in the file makes readTomlFile return an empty object, however
      much was read before it. */
  lemma {:induction false} MalformedLineDiscardsAll(text: string, i: nat)
    requires TomlReadable(text)
    requires i < |GetLines(text)| && Classify(GetLines(text)[i]).Malformed?
    ensures ReadToml(Some(text)) == map[]
  {
    var lines := GetLines(text);
    var a, b := lines[..i], lines[i..];
    assert AllReadable(a) && AllReadable(b) by {
      forall j | 0 <= j < |a| ensures LineReadable(a[j]) { assert a[j] == lines[j]; }
      forall j | 0 <= j < |b| ensures LineReadable(b[j]) { assert b[j] == lines[i + j]; }
    }
    assert lines == a + b;
    ReadLinesAppend(InitialState, a, b);
    match ReadLines(InitialState, a)
    case None =>
    case Some(s) => assert b[0] == lines[i];
  }

  /** Blank and comment lines can be added or removed anywhere without changing the result. */
  lemma {:induction false} SkippedLineIsIgnored(st: ReadState, a: seq<string>, skip: string, b: seq<string>)
    requires AllReadable(a) && AllReadable(b) && LineReadable(skip)
    requires AllSpaces(skip) || (FindFirstNotOf(skip, {' '}, 0).Some? && skip[FindFirstNotOf(skip, {' '}, 0).value] == '#')
    ensures AllReadable(a + [skip] + b)
    ensures ReadLines(st, a + [skip] + b) == ReadLines(st, a + b)
  {
    assert AllReadable([skip] + b) by {
      forall j | 0 <= j < |[skip] + b| ensures LineReadable(([skip] + b)[j]) {
        if j > 0 { assert ([skip] + b)[j] == b[j - 1]; }
      }
    }
    ReadLinesAppend(st, a, [skip] + b);
    ReadLinesAppend(st, a, b);
    assert a + [skip] + b == a + ([skip] + b);
    if AllSpaces(skip) {
      FindFirstNotOfNone(skip);
    }
    assert ([skip] + b)[1..] == b;
  }

  lemma {:induction false} FindFirstNotOfNone(s: string)
    requires AllSpaces(s)
    ensures FindFirstNotOf(s, {' '}, 0) == None
  {
  }

  /** A header names its section by stripping the brackets and spaces around it: leading
      spaces, '[' with any further '[' and spaces, the name, then any ']' and spaces. Both
      "[a]" and "[[a]]" name section "a". */
  lemma {:induction false} HeaderStripsBrackets(lead: nat, open: string, name: string, close: string)
    requires forall i :: 0 <= i < |open| ==> open[i] in HeaderOpen
    requires forall i :: 0 <= i < |close| ==> close[i] in HeaderClose
    requires |name| > 0 && name[0] !in HeaderOpen && name[|name| - 1] !in HeaderClose
    ensures var line := Spaces(lead) + "[" + open + name + close;
      LineReadable(line) && Classify(line) == Header(name)
  {
    var line := Spaces(lead) + "[" + open + name + close;
    var sb := lead + 1 + |open|;
    var se := sb + |name| - 1;
    assert line[lead] == '[';
    FindFirstNotOfIs(line, {' '}, 0, lead);
    assert line[sb] == name[0];
    FindFirstNotOfIs(line, HeaderOpen, lead + 1, sb);
    assert line[se] == name[|name| - 1];
    forall j | se < j < |line| ensures line[j] in HeaderClose {
      assert line[j] == close[j - se - 1];
    }
    FindLastNotOfIs(line, HeaderClose, se);
    assert line[sb..se + 1] == name;
  }

  lemma {:induction false} DoubleBracketHeader()
    ensures LineReadable("[[a]]") && Classify("[[a]]") == Header("a")
  {
    HeaderStripsBrackets(0, "[", "a", "]]");
    assert Spaces(0) + "[" + "[" + "a" + "]]" == "[[a]]";
  }

  /** A parameter line "key=value" (possibly indented) has the trimmed text before its first
      '=' as key and the rest, with all its spaces removed, as value. */
  lemma {:induction false} KeyValueLine(indent: nat, key: string, value: string)
    requires Unpadded(key) && '=' !in key
    requires key == [] || (key[0] != '#' && key[0] != '[')
    ensures var line := Spaces(indent) + key + "=" + value;
      LineReadable(line) && Classify(line) == KeyValue(key, RemoveAllSpaces(value))
  {
    KeyValueLayout(indent, key, value);
    ClassifyLaidOut(Spaces(indent) + key + "=" + value, indent, key, value);
  }

  /** KeyValueLine for a line described only by where its parts are. */
  lemma {:induction false} ClassifyLaidOut(line: string, indent: nat, key: string, value: string)
    requires Unpadded(key) && (key == [] || (key[0] != '#' && key[0] != '['))
    requires indent + |key| < |line| && line[indent + |key|] == '='
    requires key != [] ==> line[indent] == key[0]
    requires forall j :: 0 <= j < indent ==> line[j] == ' '
    requires forall j :: 0 <= j < indent + |key| ==> line[j] != '='
    requires line[..indent + |key|] == Spaces(indent) + key + Spaces(0)
    requires line[indent + |key| + 1..] == value
    ensures LineReadable(line) && Classify(line) == KeyValue(key, RemoveAllSpaces(value))
  {
    var e := indent + |key|;
    var p := if key == [] then e else indent;
    FindFirstNotOfIs(line, {' '}, 0, p);
    FindCharIs(line, '=', 0, e);
    ClassifyKeyValue(line, p, e);
    TrimSpacesOf(indent, key, 0);
  }

  /** Where the parts of an indented "key=value" line are. */
  lemma {:induction false} KeyValueLayout(indent: nat, key: string, value: string)
    requires '=' !in key && (key == [] || key[0] != ' ')
    ensures var line, e := Spaces(indent) + key + "=" + value, indent + |key|;
      && e < |line| && line[e] == '='
      && (key != [] ==> line[indent] == key[0])
      && (forall j :: 0 <= j < indent ==> line[j] == ' ')
      && (forall j :: 0 <= j < e ==> line[j] != '=')
      && line[..e] == Spaces(indent) + key + Spaces(0)
      && line[e + 1..] == value
  {
    var line, e := Spaces(indent) + key + "=" + value, indent + |key|;
    assert line == (Spaces(indent) + key) + "=" + value;
    forall j | 0 <= j < e ensures line[j] != '=' {
      if j >= indent { assert line[j] == key[j - indent]; }
    }
    assert line[..e] == Spaces(indent) + key;
  }

  /** A line whose first non-space character is neither '#' nor '[' and that has an '=' is
      classified by its first '='. */
  lemma {:induction false} ClassifyKeyValue(line: string, p: nat, e: nat)
    requires p < |line| && FindFirstNotOf(line, {' '}, 0) == Some(p)
    requires line[p] != '#' && line[p] != '['
    requires e < |line| && FindChar(line, '=', 0) == Some(e)
    ensures LineReadable(line) && Classify(line) == KeyValue(TrimSpaces(line[..e]), RemoveAllSpaces(line[e + 1..]))
  {
  }

  /** Parameters before the first header are put in the section named "". */
  lemma {:induction false} KeysBeforeHeaderGoToUnnamedSection(key: string, value: string)
    requires Unpadded(key) && '=' !in key
    requires key == [] || (key[0] != '#' && key[0] != '[')
    ensures var line := key + "=" + value;
      LineReadable(line) && ApplyLine(InitialState, line) == Some(ReadState(map["" := map[key := RemoveAllSpaces(value)]], ""))
  {
    var line := key + "=" + value;
    assert Spaces(0) + key + "=" + value == line by {
      assert Spaces(0) == [];
    }
    KeyValueLine(0, key, value);
    assert Classify(line) == KeyValue(key, RemoveAllSpaces(value));
    assert SectionOf(map[], "") == map[];
  }

  // ---------------------------------------------------------------------------------------
  // writeTomlSection / writeTomlFile

  /** A section name that reads back as itself from its "[name]" header. */
  predicate GoodName(name: string)
  {
    '\n' !in name && (name == [] || (name[0] !in HeaderOpen && name[|name| - 1] !in HeaderClose))
  }

  /** A key that reads back as itself from a "key=value" line. */
  predicate GoodKey(key: string)
  {
    Unpadded(key) && '=' !in key && '\n' !in key && (key == [] || (key[0] != '#' && key[0] != '['))
  }

  /** A value that reads back as itself. */
  predicate GoodValue(value: string)
  {
    ' ' !in value && '\n' !in value
  }

  predicate GoodSection(sec: Section)
  {
    forall k :: k in sec ==> GoodKey(k) && GoodValue(sec[k])
  }

  function HeaderLine(name: string): string
  {
    "[" + name + "]"
  }

  /** One "key=value" line per key of `order`, each prefixed by `indent`. */
  function EntryLines(indent: string, sec: Section, order: seq<string>): (r: seq<string>)
    requires forall i :: 0 <= i < |order| ==> order[i] in sec
    ensures |r| == |order|
  {
    if order == [] then []
    else EntryLines(indent, sec, order[..|order| - 1]) + [indent + order[|order| - 1] + "=" + sec[order[|order| - 1]]]
  }

  function SectionLines(indent: string, name: string, sec: Section, order: seq<string>): seq<string>
    requires forall i :: 0 <= i < |order| ==> order[i] in sec
  {
    [HeaderLine(name)] + EntryLines(indent, sec, order)
  }

  /** The file writeTomlSection writes, the entries visited in `order`. */
  function SectionText(name: string, sec: Section, order: seq<string>): string
    requires IsOrdering(order, sec.Keys)
  {
    Unlines(SectionLines("", name, sec, order))
  }

  /** writeTomlSection(filePath, sectionName, obj): the text it writes to the file, and its
      result, which is always true. */
  method WriteTomlSection(sectionName: string, obj: Section, order: seq<string>) returns (text: string, ok: bool)
    requires IsOrdering(order, obj.Keys)
    ensures text == SectionText(sectionName, obj, order)
    ensures ok
  {
    text := "[" + sectionName + "]\n";
    var i := 0;
    while i < |order|
      invariant 0 <= i <= |order|
      invariant text == Unlines(SectionLines("", sectionName, obj, order[..i]))
    {
      var k := order[i];
      KeyLineAppended(sectionName, obj, order, i, k);
      text := text + k + "=" + obj[k] + "\n";
      i := i + 1;
    }
    assert order[..i] == order;
    ok := true;
  }

  /** writeTomlSection's loop writes one "key=value" line per key. */
  lemma {:induction false} KeyLineAppended(name: string, sec: Section, order: seq<string>, j: nat, k: string)
    requires forall i :: 0 <= i < |order| ==> order[i] in sec
    requires j < |order| && k == order[j]
    ensures Unlines(SectionLines("", name, sec, order[..j])) + k + "=" + sec[k] + "\n"
      == Unlines(SectionLines("", name, sec, order[..j + 1]))
  {
    var line := k + "=" + sec[k];
    var lines := SectionLines("", name, sec, order[..j]);
    assert SectionLines("", name, sec, order[..j + 1]) == lines + [line] by {
      assert order[..j + 1][..j] == order[..j];
      assert "" + k == k;
    }
    assert Unlines(lines + [line]) == Unlines(lines) + (line + "\n") by {
      UnlinesAppend(lines, [line]);
      assert Unlines([line]) == line + "\n";
    }
  }

  /** The parameters of `sec` whose keys are listed in `order`. */
  function Restrict(sec: Section, order: seq<string>): Section
  {
    map k | k in sec && k in order :: sec[k]
  }

  lemma {:induction false} RestrictAll(sec: Section, order: seq<string>)
    requires IsOrdering(order, sec.Keys)
    ensures Restrict(sec, order) == sec
  {
  }

  lemma {:induction false} EntryLinesReadable(indent: nat, sec: Section, order: seq<string>)
    requires GoodSection(sec)
    requires forall i :: 0 <= i < |order| ==> order[i] in sec
    ensures AllReadable(EntryLines(Spaces(indent), sec, order))
    decreases |order|
  {
    if order != [] {
      var init := order[..|order| - 1];
      var k := order[|order| - 1];
      EntryLinesReadable(indent, sec, init);
      KeyValueLine(indent, k, sec[k]);
      var ls := EntryLines(Spaces(indent), sec, order);
      forall j | 0 <= j < |ls| ensures LineReadable(ls[j]) {
        if j < |init| {
          assert ls[j] == EntryLines(Spaces(indent), sec, init)[j];
        } else {
          assert ls[j] == Spaces(indent) + k + "=" + sec[k];
        }
      }
    }
  }

  lemma {:induction false} HeaderLineReads(name: string)
    requires GoodName(name)
    ensures LineReadable(HeaderLine(name)) && Classify(HeaderLine(name)) == Header(name)
  {
    var line := HeaderLine(name);
    if name == [] {
      assert line == "[]";
      FindFirstNotOfIs(line, {' '}, 0, 0);
      FindFirstNotOfIs(line, HeaderOpen, 1, 1);
      FindLastNotOfIs(line, HeaderClose, 0);
    } else {
      HeaderStripsBrackets(0, "", name, "]");
      assert Spaces(0) + "[" + "" + name + "]" == line;
    }
  }

  /** The lines of a section are readable and contain no newline. */
  lemma {:induction false} SectionLinesReadable(indent: nat, name: string, sec: Section, order: seq<string>)
    requires GoodName(name) && GoodSection(sec)
    requires forall i :: 0 <= i < |order| ==> order[i] in sec
    ensures AllReadable(SectionLines(Spaces(indent), name, sec, order))
    ensures NoNewlines(SectionLines(Spaces(indent), name, sec, order))
  {
    HeaderLineReads(name);
    EntryLinesReadable(indent, sec, order);
    EntryLinesNoNewlines(indent, sec, order);
    var entries := EntryLines(Spaces(indent), sec, order);
    var lines := SectionLines(Spaces(indent), name, sec, order);
    assert '\n' !in HeaderLine(name) by {
      assert HeaderLine(name) == ['['] + name + [']'];
    }
    forall j | 0 <= j < |lines| ensures LineReadable(lines[j]) && '\n' !in lines[j] {
      if j > 0 { assert lines[j] == entries[j - 1]; }
    }
  }

  lemma {:induction false} EntryLinesNoNewlines(indent: nat, sec: Section, order: seq<string>)
    requires GoodSection(sec)
    requires forall i :: 0 <= i < |order| ==> order[i] in sec
    ensures NoNewlines(EntryLines(Spaces(indent), sec, order))
    decreases |order|
  {
    if order != [] {
      var init := order[..|order| - 1];
      var k := order[|order| - 1];
      EntryLinesNoNewlines(indent, sec, init);
      var ls := EntryLines(Spaces(indent), sec, order);
      var kv := Spaces(indent) + k + "=" + sec[k];
      assert '\n' !in kv by {
        assert kv == Spaces(indent) + k + ['='] + sec[k];
      }
      forall j | 0 <= j < |ls| ensures '\n' !in ls[j] {
        if j < |init| {
          assert ls[j] == EntryLines(Spaces(indent), sec, init)[j];
        }
      }
    }
  }

  /** Reading a header followed by entry lines leaves exactly those entries in that section,
      whatever was read before. */
  lemma {:induction false} SectionLinesRead(st: ReadState, indent: nat, name: string, sec: Section, order: seq<string>)
    requires GoodName(name) && GoodSection(sec)
    requires forall i :: 0 <= i < |order| ==> order[i] in sec
    requires AllReadable(SectionLines(Spaces(indent), name, sec, order))
    ensures ReadLines(st, SectionLines(Spaces(indent), name, sec, order)) == Some(ReadState(st.ret[name := Restrict(sec, order)], name))
    decreases |order|
  {
    var lines := SectionLines(Spaces(indent), name, sec, order);
    if order == [] {
      HeaderLineReads(name);
      assert lines == [HeaderLine(name)];
      assert Restrict(sec, order) == map[];
    } else {
      var init := order[..|order| - 1];
      var k := order[|order| - 1];
      var initLines := SectionLines(Spaces(indent), name, sec, init);
      var kv := Spaces(indent) + k + "=" + sec[k];
      assert lines == initLines + [kv];
      assert AllReadable(initLines) by {
        forall j | 0 <= j < |initLines| ensures LineReadable(initLines[j]) {
          assert initLines[j] == lines[j];
        }
      }
      SectionLinesRead(st, indent, name, sec, init);
      var mid := ReadState(st.ret[name := Restrict(sec, init)], name);
      var fin := ReadState(st.ret[name := Restrict(sec, order)], name);
      EntryStep(st, indent, name, sec, order);
      ReadSnoc(st, initLines, kv, mid, fin);
    }
  }

  lemma {:induction false} EntryStep(st: ReadState, indent: nat, name: string, sec: Section, order: seq<string>)
    requires GoodSection(sec) && |order| > 0
    requires forall i :: 0 <= i < |order| ==> order[i] in sec
    ensures var k := order[|order| - 1];
      var line := Spaces(indent) + k + "=" + sec[k];
      LineReadable(line)
      && ReadLines(ReadState(st.ret[name := Restrict(sec, order[..|order| - 1])], name), [line])
         == Some(ReadState(st.ret[name := Restrict(sec, order)], name))
  {
    var init := order[..|order| - 1];
    var k := order[|order| - 1];
    var mid := ReadState(st.ret[name := Restrict(sec, init)], name);
    KeyValueStep(mid, indent, k, sec[k]);
    assert SectionOf(mid.ret, name) == Restrict(sec, init);
    assert Restrict(sec, init)[k := sec[k]] == Restrict(sec, order);
    assert mid.ret[name := Restrict(sec, order)] == st.ret[name := Restrict(sec, order)];
  }

  lemma {:induction false} ReadSnoc(st: ReadState, ls: seq<string>, line: string, mid: ReadState, fin: ReadState)
    requires AllReadable(ls) && LineReadable(line)
    requires ReadLines(st, ls) == Some(mid)
    requires ReadLines(mid, [line]) == Some(fin)
    ensures AllReadable(ls + [line])
    ensures ReadLines(st, ls + [line]) == Some(fin)
  {
    ReadLinesAppend(st, ls, [line]);
  }

  /** Reading one representable parameter line sets that parameter in the current section. */
  lemma {:induction false} KeyValueStep(st: ReadState, indent: nat, key: string, value: string)
    requires GoodKey(key) && GoodValue(value)
    ensures var line := Spaces(indent) + key + "=" + value;
      AllReadable([line])
      && ReadLines(st, [line]) == Some(ReadState(st.ret[st.section := SectionOf(st.ret, st.section)[key := value]], st.section))
  {
    KeyValueLine(indent, key, value);
    RemoveAllSpacesNoSpaces(value);
  }

  /** writeTomlSection followed by readTomlFile gives back exactly the one section written,
      for every iteration order, as long as the name, keys and values are representable. */
  lemma {:induction false} WriteTomlSectionReadsBack(name: string, sec: Section, order: seq<string>)
    requires IsOrdering(order, sec.Keys)
    requires GoodName(name) && GoodSection(sec)
    ensures TomlReadable(SectionText(name, sec, order))
    ensures ReadToml(Some(SectionText(name, sec, order))) == map[name := sec]
  {
    var lines := SectionLines(Spaces(0), name, sec, order);
    assert Spaces(0) == "";
    SectionLinesReadable(0, name, sec, order);
    SectionLinesRead(InitialState, 0, name, sec, order);
    LinesOfText(lines);
    RestrictAll(sec, order);
  }

  lemma {:induction false} LinesOfText(lines: seq<string>)
    requires NoNewlines(lines)
    ensures GetLines(Unlines(lines)) == lines
  {
    GetLinesUnlines(lines);
  }

  /** The iteration orders under which writeTomlFile visits every section and every key of
      each section once. */
  predicate OrdersFor(obj: TomlObject, sorder: seq<string>, korders: map<string, seq<string>>)
  {
    IsOrdering(sorder, obj.Keys) && forall s :: s in obj ==> s in korders && IsOrdering(korders[s], obj[s].Keys)
  }

  /** `sorder` names sections of `obj` whose key orders list only their keys. */
  predicate OrdersFit(obj: TomlObject, sorder: seq<string>, korders: map<string, seq<string>>)
  {
    forall i :: 0 <= i < |sorder| ==>
      sorder[i] in obj && sorder[i] in korders
      && forall j :: 0 <= j < |korders[sorder[i]]| ==> korders[sorder[i]][j] in obj[sorder[i]]
  }

  lemma {:induction false} OrdersForFit(obj: TomlObject, sorder: seq<string>, korders: map<string, seq<string>>)
    requires OrdersFor(obj, sorder, korders)
    ensures OrdersFit(obj, sorder, korders)
  {
  }

  lemma {:induction false} OrdersFitPrefix(obj: TomlObject, sorder: seq<string>, korders: map<string, seq<string>>, n: nat)
    requires OrdersFit(obj, sorder, korders) && n <= |sorder|
    ensures OrdersFit(obj, sorder[..n], korders)
  {
    forall i | 0 <= i < n ensures sorder[..n][i] == sorder[i] { }
  }

  /** The lines writeTomlFile writes: each section's header, then its parameters indented by
      two spaces. */
  function FileLines(obj: TomlObject, sorder: seq<string>, korders: map<string, seq<string>>): seq<string>
    requires OrdersFit(obj, sorder, korders)
  {
    if sorder == [] then []
    else
      var s := sorder[|sorder| - 1];
      OrdersFitPrefix(obj, sorder, korders, |sorder| - 1);
      FileLines(obj, sorder[..|sorder| - 1], korders) + SectionLines("  ", s, obj[s], korders[s])
  }

  function FileText(obj: TomlObject, sorder: seq<string>, korders: map<string, seq<string>>): string
    requires OrdersFor(obj, sorder, korders)
  {
    OrdersForFit(obj, sorder, korders);
    Unlines(FileLines(obj, sorder, korders))
  }

  /** One more "key=value" line at the end of a section's text. */
  lemma {:induction false} EntryLineAppended(pre: string, spc: string, s: string, sec: Section, order: seq<string>, j: nat)
    requires forall i :: 0 <= i < |order| ==> order[i] in sec
    requires j < |order|
    ensures pre + Unlines(SectionLines(spc, s, sec, order[..j])) + spc + order[j] + "=" + sec[order[j]] + "\n"
      == pre + Unlines(SectionLines(spc, s, sec, order[..j + 1]))
  {
    var k := order[j];
    var line := spc + k + "=" + sec[k];
    var lines := SectionLines(spc, s, sec, order[..j]);
    assert SectionLines(spc, s, sec, order[..j + 1]) == lines + [line] by {
      assert order[..j + 1][..j] == order[..j];
    }
    assert Unlines(lines + [line]) == Unlines(lines) + (line + "\n") by {
      UnlinesAppend(lines, [line]);
      assert Unlines([line]) == line + "\n";
    }
  }

  /** The inner loop of writeTomlFile: the header of one section, then its parameters, each
      indented by `spc`. */
  method WriteSectionLines(pre: string, spc: string, s: string, sec: Section, order: seq<string>) returns (text: string)
    requires forall i :: 0 <= i < |order| ==> order[i] in sec
    ensures text == pre + Unlines(SectionLines(spc, s, sec, order))
  {
    text := pre + "[" + s + "]\n";
    var j := 0;
    while j < |order|
      invariant 0 <= j <= |order|
      invariant text == pre + Unlines(SectionLines(spc, s, sec, order[..j]))
    {
      var k := order[j];
      EntryLineAppended(pre, spc, s, sec, order, j);
      text := text + spc + k + "=" + sec[k] + "\n";
      j := j + 1;
    }
    assert order[..j] == order;
  }

  /** writeTomlFile(filePath, obj): the text it writes to the file. */
  method WriteTomlFile(obj: TomlObject, sorder: seq<string>, korders: map<string, seq<string>>) returns (text: string)
    requires OrdersFor(obj, sorder, korders)
    ensures text == FileText(obj, sorder, korders)
  {
    OrdersForFit(obj, sorder, korders);
    var spc := "  ";
    text := "";
    var i := 0;
    while i < |sorder|
      invariant 0 <= i <= |sorder|
      invariant OrdersFit(obj, sorder[..i], korders)
      invariant text == Unlines(FileLines(obj, sorder[..i], korders))
    {
      var s := sorder[i];
      var order := korders[s];
      ghost var before := FileLines(obj, sorder[..i], korders);
      text := WriteSectionLines(text, spc, s, obj[s], order);
      OrdersFitPrefix(obj, sorder, korders, i + 1);
      assert sorder[..i + 1][..i] == sorder[..i];
      UnlinesAppend(before, SectionLines(spc, s, obj[s], order));
      i := i + 1;
    }
    assert sorder[..i] == sorder;
  }

  /** The sections of `obj` named in `sorder`. */
  function RestrictSections(obj: TomlObject, sorder: seq<string>): TomlObject
  {
    map s | s in obj && s in sorder :: obj[s]
  }

  predicate GoodObject(obj: TomlObject)
  {
    forall s :: s in obj ==> GoodName(s) && GoodSection(obj[s])
  }

  lemma {:induction false} RestrictSectionsSnoc(obj: TomlObject, sorder: seq<string>)
    requires sorder != [] && sorder[|sorder| - 1] in obj
    ensures var s := sorder[|sorder| - 1];
      RestrictSections(obj, sorder[..|sorder| - 1])[s := obj[s]] == RestrictSections(obj, sorder)
  {
    var s := sorder[|sorder| - 1];
    var init := sorder[..|sorder| - 1];
    assert forall t :: t in sorder <==> t in init || t == s by {
      FrontLast(sorder);
    }
  }

  lemma {:induction false} FileLinesRead(obj: TomlObject, sorder: seq<string>, korders: map<string, seq<string>>)
    requires GoodObject(obj)
    requires OrdersFit(obj, sorder, korders)
    requires forall s :: s in obj ==> s in korders && IsOrdering(korders[s], obj[s].Keys)
    ensures AllReadable(FileLines(obj, sorder, korders)) && NoNewlines(FileLines(obj, sorder, korders))
    ensures ReadLines(InitialState, FileLines(obj, sorder, korders)).Some?
    ensures ReadLines(InitialState, FileLines(obj, sorder, korders)).value.ret == RestrictSections(obj, sorder)
    decreases |sorder|
  {
    var lines := FileLines(obj, sorder, korders);
    if sorder == [] {
      assert RestrictSections(obj, sorder) == map[];
    } else {
      var init := sorder[..|sorder| - 1];
      var s := sorder[|sorder| - 1];
      OrdersFitPrefix(obj, sorder, korders, |sorder| - 1);
      FileLinesRead(obj, init, korders);
      var initLines := FileLines(obj, init, korders);
      var secLines := SectionLines(Spaces(2), s, obj[s], korders[s]);
      assert Spaces(2) == "  ";
      assert lines == initLines + secLines;
      SectionLinesReadable(2, s, obj[s], korders[s]);
      var mid := ReadLines(InitialState, initLines).value;
      SectionLinesRead(mid, 2, s, obj[s], korders[s]);
      ReadLinesAppend(InitialState, initLines, secLines);
      RestrictAll(obj[s], korders[s]);
      RestrictSectionsSnoc(obj, sorder);
      assert NoNewlines(lines) by {
        forall j | 0 <= j < |lines| ensures '\n' !in lines[j] {
          if j < |initLines| { assert lines[j] == initLines[j]; } else { assert lines[j] == secLines[j - |initLines|]; }
        }
      }
    }
  }

  /** writeTomlFile followed by readTomlFile gives back the object, for every iteration order,
      as long as the section names, keys and values are representable. */
  lemma {:induction false} WriteTomlFileReadsBack(obj: TomlObject, sorder: seq<string>, korders: map<string, seq<string>>)
    requires OrdersFor(obj, sorder, korders)
    requires GoodObject(obj)
    ensures TomlReadable(FileText(obj, sorder, korders))
    ensures ReadToml(Some(FileText(obj, sorder, korders))) == obj
  {
    OrdersForFit(obj, sorder, korders);
    FileLinesRead(obj, sorder, korders);
    LinesOfText(FileLines(obj, sorder, korders));
    assert RestrictSections(obj, sorder) == obj;
  }

  // ---------------------------------------------------------------------------------------
  // tomlObjectToJsonString

  const Tab: string := "    "

  /** One parameter: `"key": raw`, the raw value text not re-quoted. */
  function EntryText(indent: string, key: string, value: string): string
  {
    indent + "\"" + key + "\": " + value
  }

  function EntryTexts(indent: string, sec: Section, order: seq<string>): (r: seq<string>)
    requires forall i :: 0 <= i < |order| ==> order[i] in sec
    ensures |r| == |order|
  {
    if order == [] then []
    else EntryTexts(indent, sec, order[..|order| - 1]) + [EntryText(indent, order[|order| - 1], sec[order[|order| - 1]])]
  }

  /** Items separated by ",\n", the last one followed by " \n"; nothing for no items. */
  function ListBody(items: seq<string>): string
  {
    if items == [] then "" else Join(items, ",\n") + " \n"
  }

  /** One section: its quoted name, then its parameters one per line, in braces. */
  function SectionBlock(indent: string, name: string, sec: Section, order: seq<string>): string
    requires forall i :: 0 <= i < |order| ==> order[i] in sec
  {
    indent + "\"" + name + "\": {\n" + ListBody(EntryTexts(indent + Tab, sec, order)) + indent + "}"
  }

  function SectionBlocks(indent: string, obj: TomlObject, sorder: seq<string>, korders: map<string, seq<string>>): (r: seq<string>)
    requires OrdersFit(obj, sorder, korders)
    ensures |r| == |sorder|
  {
    if sorder == [] then []
    else
      var s := sorder[|sorder| - 1];
      OrdersFitPrefix(obj, sorder, korders, |sorder| - 1);
      SectionBlocks(indent, obj, sorder[..|sorder| - 1], korders) + [SectionBlock(indent, s, obj[s], korders[s])]
  }

  /** The JSON text of a TOML object: sections as objects of raw values, indented by four
      spaces per level from `initialIndentation`. */
  function JsonText(obj: TomlObject, initialIndentation: string, sorder: seq<string>, korders: map<string, seq<string>>): string
    requires OrdersFor(obj, sorder, korders)
  {
    OrdersForFit(obj, sorder, korders);
    initialIndentation + "{\n" + ListBody(SectionBlocks(initialIndentation + Tab, obj, sorder, korders)) + initialIndentation + "}"
  }

  /** Replacing the ',' of a final ",\n" by a space turns a comma-terminated list into its
      list body. */
  lemma {:induction false} PatchComma(prefix: string, items: seq<string>)
    requires items != []
    ensures var t := prefix + Terminated(items, ",\n"); |t| >= 2 && t[|t| - 2 := ' '] == prefix + ListBody(items)
  {
    TerminatedJoin(items, ",\n");
    var j := Join(items, ",\n");
    var t := prefix + j + ",\n";
    assert t == prefix + Terminated(items, ",\n");
    assert t[|t| - 2 := ' '] == prefix + j + " \n";
  }

  /** One more section block at the end of the comma-terminated list. */
  lemma {:induction false} BlocksSnoc(indent: string, obj: TomlObject, sorder: seq<string>, korders: map<string, seq<string>>, i: nat)
    requires OrdersFit(obj, sorder, korders) && i < |sorder|
    ensures OrdersFit(obj, sorder[..i], korders) && OrdersFit(obj, sorder[..i + 1], korders)
    ensures Terminated(SectionBlocks(indent, obj, sorder[..i + 1], korders), ",\n")
      == Terminated(SectionBlocks(indent, obj, sorder[..i], korders), ",\n")
         + (SectionBlock(indent, sorder[i], obj[sorder[i]], korders[sorder[i]]) + ",\n")
  {
    OrdersFitPrefix(obj, sorder, korders, i);
    OrdersFitPrefix(obj, sorder, korders, i + 1);
    var p := sorder[..i + 1];
    assert p[..|p| - 1] == sorder[..i] && p[|p| - 1] == sorder[i];
    var s := sorder[i];
    TerminatedSnoc(SectionBlocks(indent, obj, sorder[..i], korders), SectionBlock(indent, s, obj[s], korders[s]), ",\n");
  }

  /** One more entry at the end of the comma-terminated list. */
  lemma {:induction false} EntriesSnoc(indent: string, sec: Section, order: seq<string>, j: nat)
    requires forall i :: 0 <= i < |order| ==> order[i] in sec
    requires j < |order|
    ensures Terminated(EntryTexts(indent, sec, order[..j + 1]), ",\n")
      == Terminated(EntryTexts(indent, sec, order[..j]), ",\n") + (EntryText(indent, order[j], sec[order[j]]) + ",\n")
  {
    var p := order[..j + 1];
    assert p[..|p| - 1] == order[..j] && p[|p| - 1] == order[j];
    TerminatedSnoc(EntryTexts(indent, sec, order[..j]), EntryText(indent, order[j], sec[order[j]]), ",\n");
  }

  /** Closing a section: the (patched) entry list followed by the closing brace completes the
      section block. */
  lemma {:induction false} CloseSection(before: string, indent: string, name: string, sec: Section, order: seq<string>, body: string)
    requires forall i :: 0 <= i < |order| ==> order[i] in sec
    requires body == ListBody(EntryTexts(indent + Tab, sec, order))
    ensures before + (indent + "\"" + name + "\": {\n") + body + (indent + "},\n")
      == before + SectionBlock(indent, name, sec, order) + ",\n"
  {
  }

  /** The body of tomlObjectToJsonString's outer loop: appends one section, its entries at one
      more level of indentation, the comma after its last entry overwritten by a space. */
  method AppendSection(ret0: string, indent: string, s: string, sec: Section, order: seq<string>) returns (ret: string)
    requires Unordered.IsOrdering(order, sec.Keys)
    ensures ret == ret0 + (SectionBlock(indent, s, sec, order) + ",\n")
  {
    ret := ret0 + (indent + "\"" + s + "\": {\n");
    ghost var head := ret;
    var inner := indent + Tab;
    var j := 0;
    while j < |order|
      invariant 0 <= j <= |order|
      invariant ret == head + Terminated(EntryTexts(inner, sec, order[..j]), ",\n")
    {
      var k := order[j];
      EntriesSnoc(inner, sec, order, j);
      ghost var prev := Terminated(EntryTexts(inner, sec, order[..j]), ",\n");
      ret := ret + (inner + "\"" + k + "\": " + sec[k] + ",\n");
      AppendAssoc(head, prev, EntryText(inner, k, sec[k]) + ",\n");
      j := j + 1;
    }
    assert order[..j] == order;
    Unordered.OrderingLength(order, sec.Keys);
    if |sec| != 0 {
      PatchComma(head, EntryTexts(inner, sec, order));
      ret := ret[|ret| - 2 := ' '];
    }
    ghost var body := ListBody(EntryTexts(inner, sec, order));
    assert ret == head + body;
    ret := ret + (indent + "},\n");
    CloseSection(ret0, indent, s, sec, order, body);
    AppendAssoc(ret0, SectionBlock(indent, s, sec, order), ",\n");
  }

  /** Closing the object: the comma after the last section overwritten, then the closing brace. */
  lemma {:induction false} CloseObject(initialIndentation: string, open: string, inner: string, obj: TomlObject, sorder: seq<string>, korders: map<string, seq<string>>, t: string)
    requires OrdersFor(obj, sorder, korders)
    requires open == initialIndentation + "{\n" && inner == initialIndentation + Tab
    requires OrdersFit(obj, sorder, korders) && t == open + Terminated(SectionBlocks(inner, obj, sorder, korders), ",\n")
    ensures |obj| != 0 ==> |t| >= 2 && t[|t| - 2 := ' '] + (initialIndentation + "}") == JsonText(obj, initialIndentation, sorder, korders)
    ensures |obj| == 0 ==> t + (initialIndentation + "}") == JsonText(obj, initialIndentation, sorder, korders)
  {
    OrdersForFit(obj, sorder, korders);
    var blocks := SectionBlocks(inner, obj, sorder, korders);
    Unordered.OrderingLength(sorder, obj.Keys);
    if |obj| != 0 {
      PatchComma(open, blocks);
    }
    Regroup(initialIndentation, "{\n", ListBody(blocks), initialIndentation + "}");
  }

  /** tomlObjectToJsonString(obj, initialIndentation): builds the text line by line with a
      trailing ",\n" after every item, and overwrites the comma after the last item of each
      list with a space. */
  method TomlObjectToJsonString(obj: TomlObject, initialIndentation: string, sorder: seq<string>, korders: map<string, seq<string>>) returns (ret: string)
    requires OrdersFor(obj, sorder, korders)
    ensures ret == JsonText(obj, initialIndentation, sorder, korders)
  {
    OrdersForFit(obj, sorder, korders);
    ret := initialIndentation + "{\n";
    var indent := initialIndentation + Tab;
    ghost var open := ret;
    ret := AppendSections(ret, indent, obj, sorder, korders);
    CloseObject(initialIndentation, open, indent, obj, sorder, korders, ret);
    if |obj| != 0 {
      ret := ret[|ret| - 2 := ' '];
    }
    ret := ret + (initialIndentation + "}");
  }

  /** The outer loop of tomlObjectToJsonString: every section in `sorder`, each followed by
      ",\n". */
  method AppendSections(ret0: string, indent: string, obj: TomlObject, sorder: seq<string>, korders: map<string, seq<string>>) returns (ret: string)
    requires OrdersFor(obj, sorder, korders)
    ensures OrdersFit(obj, sorder, korders)
    ensures ret == ret0 + Terminated(SectionBlocks(indent, obj, sorder, korders), ",\n")
  {
    OrdersForFit(obj, sorder, korders);
    ret := ret0;
    var i := 0;
    while i < |sorder|
      invariant 0 <= i <= |sorder|
      invariant OrdersFit(obj, sorder[..i], korders)
      invariant ret == ret0 + Terminated(SectionBlocks(indent, obj, sorder[..i], korders), ",\n")
    {
      var s := sorder[i];
      BlocksSnoc(indent, obj, sorder, korders, i);
      ghost var prev := Terminated(SectionBlocks(indent, obj, sorder[..i], korders), ",\n");
      ret := AppendSection(ret, indent, s, obj[s], korders[s]);
      AppendAssoc(ret0, prev, SectionBlock(indent, s, obj[s], korders[s]) + ",\n");
      i := i + 1;
    }
    assert sorder[..i] == sorder;
  }

  /** An empty object is an empty pair of braces, each on its own line. */
  lemma {:induction false} EmptyObjectJson(initialIndentation: string, korders: map<string, seq<string>>)
    ensures OrdersFor(map[], [], korders)
    ensures JsonText(map[], initialIndentation, [], korders) == initialIndentation + "{\n" + initialIndentation + "}"
  {
  }
}
