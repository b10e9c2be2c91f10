/** The older Luna category "/collector" (class lunaApiCollector): its text handling. setConfig
    checks a payload against the keys it allows and rewrites telegraf.conf line by line;
    getConfig reads telegraf.conf into sections of keys; getData builds the "telegraf -test"
    command and splits its line-protocol output into objects. JSON documents are given
    already parsed, and the JSON text of a configuration value is kept as raw text. */
module CollectorApi {
  import opened CppString
  import opened JsonValue

  // ---------------------------------------------------------------------------------------
  // ltrim, rtrim, trim

  /** The default character set of the trim helpers: " \t\n\r\f\v". */
  const TrimSet: set<char> := {' ', '\t', '\n', '\r', '\U{0C}', '\U{0B}'}

  /** ltrim: erase(0, find_first_not_of(t)); with no such character everything goes. */
  function LTrim(s: string): (r: string)
    ensures |r| <= |s| && r == s[|s| - |r|..]
    ensures r == "" || r[0] !in TrimSet
    ensures forall k :: 0 <= k < |s| - |r| ==> s[k] in TrimSet
  {
    match FindFirstNotOf(s, TrimSet, 0)
    case None => ""
    case Some(i) => s[i..]
  }

  /** rtrim: erase(find_last_not_of(t) + 1); npos + 1 wraps around to 0 and erases all. */
  function RTrim(s: string): (r: string)
    ensures |r| <= |s| && r == s[..|r|]
    ensures r == "" || r[|r| - 1] !in TrimSet
    ensures forall k :: |r| <= k < |s| ==> s[k] in TrimSet
  {
    match FindLastNotOf(s, TrimSet)
    case None => ""
    case Some(i) => s[..i + 1]
  }

  /** trim: ltrim(rtrim(s)). */
  function Trim(s: string): string
  {
    LTrim(RTrim(s))
  }

  /** Neither end is a trimmed character. */
  predicate Trimmed(s: string)
  {
    s == "" || (s[0] !in TrimSet && s[|s| - 1] !in TrimSet)
  }

  /** Trimming keeps a slice of the text, which is trimmed, and drops only trimmed characters
      around it. */
  lemma {:induction false} TrimSlice(s: string) returns (i: nat, j: nat)
    ensures i <= j <= |s| && Trim(s) == s[i..j] && Trimmed(Trim(s))
    ensures forall k :: 0 <= k < i ==> s[k] in TrimSet
    ensures forall k :: j <= k < |s| ==> s[k] in TrimSet
  {
    match FindLastNotOf(s, TrimSet)
    case None =>
      i, j := 0, 0;
    case Some(e) =>
      var r := s[..e + 1];
      assert r[e] !in TrimSet;
      FindFirstNotOfIs(r, TrimSet, 0, FindFirstNotOf(r, TrimSet, 0).value);
      i, j := FindFirstNotOf(r, TrimSet, 0).value, e + 1;
      assert forall k :: 0 <= k < i ==> s[k] == r[k];
  }

  /** A trimmed text is its own trim. */
  lemma {:induction false} TrimOfTrimmed(s: string)
    requires Trimmed(s)
    ensures Trim(s) == s
  {
    if s != "" {
      FindLastNotOfIs(s, TrimSet, |s| - 1);
      assert s[..|s|] == s;
      FindFirstNotOfIs(s, TrimSet, 0, 0);
    }
  }

  /** Trimming twice is trimming once. */
  lemma {:induction false} TrimIdempotent(s: string)
    ensures Trim(Trim(s)) == Trim(s)
  {
    var i, j := TrimSlice(s);
    TrimOfTrimmed(Trim(s));
  }

  /** Trimming removes padding made of trimmed characters on both sides. */
  lemma {:induction false} TrimPadded(pre: string, x: string, post: string)
    requires forall k :: 0 <= k < |pre| ==> pre[k] in TrimSet
    requires forall k :: 0 <= k < |post| ==> post[k] in TrimSet
    requires Trimmed(x)
    ensures Trim(pre + x + post) == x
  {
    var s := pre + x + post;
    if x == "" {
      assert forall k :: 0 <= k < |s| ==> s[k] in TrimSet by {
        forall k | 0 <= k < |s| ensures s[k] in TrimSet {
          if k < |pre| { assert s[k] == pre[k]; } else { assert s[k] == post[k - |pre|]; }
        }
      }
      assert RTrim(s) == "";
    } else {
      var e := |pre| + |x| - 1;
      assert s[e] == x[|x| - 1];
      assert forall j :: e < j < |s| ==> s[j] == post[j - |pre| - |x|];
      FindLastNotOfIs(s, TrimSet, e);
      var r := s[..e + 1];
      assert r == pre + x;
      assert r[|pre|] == x[0];
      FindFirstNotOfIs(r, TrimSet, 0, |pre|);
      assert r[|pre|..] == x;
    }
  }

  // ---------------------------------------------------------------------------------------
  // setConfig: the check of the payload

  /** availableConfiguration: the sections setConfig accepts, each with the keys allowed in
      it. */
  const Available: map<string, seq<string>> :=
    map["agent" := ["interval", "flush_interval"], "outputs.influxdb" := ["database", "urls"]]

  /** One `key = value` of a payload section, with the value as JSON text. */
  datatype Entry = Entry(key: string, value: string)

  /** One section of the payload, with its members in the order the JSON object lists
      them. */
  datatype SectionParams = SectionParams(name: string, entries: seq<Entry>)

  /** tolower in the "C" locale. */
  function Lower(c: char): char
  {
    if 'A' <= c <= 'Z' then ((c as int) + 32) as char else c
  }

  /** strcasecmp(a, b) == 0. */
  predicate EqualsIgnoreCase(a: string, b: string)
  {
    |a| == |b| && forall i :: 0 <= i < |a| ==> Lower(a[i]) == Lower(b[i])
  }

  /** A key matches one of the allowed keys, ignoring case. */
  predicate KeyAllowed(allowed: seq<string>, key: string)
  {
    exists i :: 0 <= i < |allowed| && EqualsIgnoreCase(key, allowed[i])
  }

  /** The payload passes the check: it has a section, every section is one of the available
      ones, spelt exactly, and every key of a section matches an allowed key of it. */
  predicate ValidParams(params: seq<SectionParams>)
  {
    && |params| > 0
    && (forall i :: 0 <= i < |params| ==> params[i].name in Available)
    && (forall i, j :: 0 <= i < |params| && 0 <= j < |params[i].entries| ==>
          KeyAllowed(Available[params[i].name], params[i].entries[j].key))
  }

  /** The innermost loop of the check: whether a key matches an allowed one. */
  method FindAllowedKey(allowed: seq<string>, key: string) returns (availFlag: bool)
    ensures availFlag == KeyAllowed(allowed, key)
  {
    var i := 0;
    while i < |allowed|
      invariant 0 <= i <= |allowed|
      invariant forall k :: 0 <= k < i ==> !EqualsIgnoreCase(key, allowed[k])
    {
      if EqualsIgnoreCase(key, allowed[i]) {
        return true;
      }
      i := i + 1;
    }
    return false;
  }

  /** The check of setConfig: false (an invalid-parameters reply) on an empty payload, on the
      first section that is not available, and on the first key that matches none. */
  method CheckParams(params: seq<SectionParams>) returns (ok: bool)
    ensures ok == ValidParams(params)
  {
    if |params| == 0 {
      return false;
    }
    var i := 0;
    while i < |params|
      invariant 0 <= i <= |params|
      invariant forall k :: 0 <= k < i ==> params[k].name in Available
      invariant forall k, j :: 0 <= k < i && 0 <= j < |params[k].entries| ==>
        KeyAllowed(Available[params[k].name], params[k].entries[j].key)
    {
      if params[i].name !in Available {
        return false;
      }
      var j := 0;
      while j < |params[i].entries|
        invariant 0 <= j <= |params[i].entries|
        invariant forall m :: 0 <= m < j ==> KeyAllowed(Available[params[i].name], params[i].entries[m].key)
      {
        var availFlag := FindAllowedKey(Available[params[i].name], params[i].entries[j].key);
        if !availFlag {
          return false;
        }
        j := j + 1;
      }
      i := i + 1;
    }
    return true;
  }

  /** Keys that differ only in the case of their letters are both allowed or both not. */
  lemma {:induction false} KeyAllowedIgnoresCase(allowed: seq<string>, a: string, b: string)
    requires EqualsIgnoreCase(a, b)
    ensures KeyAllowed(allowed, a) <==> KeyAllowed(allowed, b)
  {
    if KeyAllowed(allowed, a) {
      var i :| 0 <= i < |allowed| && EqualsIgnoreCase(a, allowed[i]);
      assert EqualsIgnoreCase(b, allowed[i]);
    }
    if KeyAllowed(allowed, b) {
      var i :| 0 <= i < |allowed| && EqualsIgnoreCase(b, allowed[i]);
      assert EqualsIgnoreCase(a, allowed[i]);
    }
  }

  /** The three rejections: no section; a section that is not available; a key that matches
      no allowed key of its section. */
  lemma {:induction false} ValidParamsRejects(params: seq<SectionParams>, i: nat, j: nat)
    ensures |params| == 0 ==> !ValidParams(params)
    ensures i < |params| && params[i].name !in Available ==> !ValidParams(params)
    ensures (i < |params| && params[i].name in Available && j < |params[i].entries|
             && !KeyAllowed(Available[params[i].name], params[i].entries[j].key)) ==> !ValidParams(params)
  {
  }

  // ---------------------------------------------------------------------------------------
  // Text helpers shared by the parsers

  /** std::remove of '[' and then of ']', with the tail erased. */
  function StripBrackets(s: string): (r: string)
    ensures '[' !in r && ']' !in r
  {
    if s == [] then []
    else StripBrackets(s[..|s| - 1]) + (if s[|s| - 1] == '[' || s[|s| - 1] == ']' then [] else [s[|s| - 1]])
  }

  /** A text without brackets loses nothing. */
  lemma {:induction false} StripBracketsNone(name: string)
    requires '[' !in name && ']' !in name
    ensures StripBrackets(name) == name
  {
    if name != [] {
      StripBracketsNone(name[..|name| - 1]);
    }
  }

  /** A name in one or two pairs of brackets loses just those. */
  lemma {:induction false} StripBracketsOf(name: string)
    requires '[' !in name && ']' !in name
    ensures StripBrackets("[" + name + "]") == name
    ensures StripBrackets("[" + ("[" + name + "]") + "]") == name
  {
    StripBracketsNone(name);
    StripBracketsWrapped(name);
    StripBracketsWrapped("[" + name + "]");
  }

  /** A pair of brackets around a text is removed with the text's own. */
  lemma {:induction false} StripBracketsWrapped(x: string)
    ensures StripBrackets("[" + x + "]") == StripBrackets(x)
  {
    assert StripBrackets("[") == [] by { assert "["[..0] == []; }
    assert StripBrackets("]") == [] by { assert "]"[..0] == []; }
    StripBracketsAppend("[", x);
    StripBracketsAppend("[" + x, "]");
  }

  lemma {:induction false} StripBracketsAppend(a: string, b: string)
    ensures StripBrackets(a + b) == StripBrackets(a) + StripBrackets(b)
    decreases |b|
  {
    if b == [] {
      assert a + b == a;
    } else {
      assert (a + b)[..|a + b| - 1] == a + b[..|b| - 1];
      StripBracketsAppend(a, b[..|b| - 1]);
    }
  }

  /** std::string::substr(pos, count) with the count passed as an int: a negative count is
      npos once converted, and means "to the end". */
  function Substr(s: string, pos: nat, count: int): (r: string)
    requires pos <= |s|
    ensures |r| <= |s| - pos
  {
    if count < 0 || pos + count >= |s| then s[pos..] else s[pos..pos + count]
  }

  /** std::string::find(t, from) looks at the text from `from` on. */
  lemma {:induction false} FindShift(s: string, t: string, from: nat)
    requires from <= |s|
    ensures Find(s, t, from).None? <==> Find(s[from..], t, 0).None?
    ensures Find(s, t, from).Some? ==> Find(s, t, from).value == from + Find(s[from..], t, 0).value
  {
    var u := s[from..];
    forall j | 0 <= j
      ensures OccursAt(u, t, j) <==> OccursAt(s, t, from + j)
    {
      if j + |t| <= |u| {
        assert u[j..j + |t|] == s[from + j..from + j + |t|];
      }
    }
    match Find(u, t, 0)
    case Some(x) =>
      forall j | from <= j < from + x
        ensures !OccursAt(s, t, j)
      {
        assert !OccursAt(u, t, j - from);
      }
      FindIs(s, t, from, from + x);
    case None =>
      forall j | from <= j
        ensures !OccursAt(s, t, j)
      {
        assert !OccursAt(u, t, j - from);
      }
  }

  /** The pieces of a text between the occurrences of a separator, in order. */
  function Pieces(s: string, sep: string): (r: seq<string>)
    requires |sep| > 0
    ensures |r| >= 1
    decreases |s|
  {
    match Find(s, sep, 0)
    case None => [s]
    case Some(c) => [s[..c]] + Pieces(s[c + |sep|..], sep)
  }

  /** Joining the pieces with the separator gives the text back. */
  lemma {:induction false} PiecesJoin(s: string, sep: string)
    requires |sep| > 0
    ensures Join(Pieces(s, sep), sep) == s
    decreases |s|
  {
    match Find(s, sep, 0)
    case None =>
    case Some(c) =>
      var rest := s[c + |sep|..];
      var ps := Pieces(rest, sep);
      assert Join(ps, sep) == rest by { PiecesJoin(rest, sep); }
      assert Join([s[..c]] + ps, sep) == s[..c] + sep + Join(ps, sep) by {
        assert ([s[..c]] + ps)[1..] == ps;
      }
      assert s == s[..c] + sep + rest by {
        assert s[c..c + |sep|] == sep;
      }
  }

  /** No piece holds the separator. */
  lemma {:induction false} PiecesHaveNoSeparator(s: string, sep: string)
    requires |sep| > 0
    ensures forall p :: p in Pieces(s, sep) ==> !Contains(p, sep)
    decreases |s|
  {
    match Find(s, sep, 0)
    case None =>
    case Some(c) =>
      PiecesHaveNoSeparator(s[c + |sep|..], sep);
      NoEarlierOccurrence(s, sep, c);
  }

  lemma {:induction false} NoEarlierOccurrence(s: string, sep: string, c: nat)
    requires |sep| > 0 && c <= |s| && forall j :: 0 <= j < c ==> !OccursAt(s, sep, j)
    ensures !Contains(s[..c], sep)
  {
    if Contains(s[..c], sep) {
      var x := Find(s[..c], sep, 0).value;
      assert s[..c][x..x + |sep|] == s[x..x + |sep|];
      assert OccursAt(s, sep, x);
    }
  }

  /** A splitting loop that searches from `prev` and finds no separator has one piece left. */
  lemma {:induction false} PiecesStepLast(s: string, sep: string, prev: nat)
    requires |sep| > 0 && prev <= |s| && Find(s, sep, prev).None?
    ensures Pieces(s[prev..], sep) == [s[prev..]]
  {
    FindShift(s, sep, prev);
  }

  /** A splitting loop that searches from `prev` and finds the separator at c takes the
      text up to c and goes on after the separator. */
  lemma {:induction false} PiecesStepMore(s: string, sep: string, prev: nat, c: nat)
    requires |sep| > 0 && prev <= |s| && Find(s, sep, prev) == Some(c)
    ensures prev <= c && c + |sep| <= |s|
    ensures Pieces(s[prev..], sep) == [s[prev..c]] + Pieces(s[c + |sep|..], sep)
  {
    FindShift(s, sep, prev);
    var t, x := s[prev..], c - prev;
    PiecesAt(t, sep, x);
    assert t[..x] == s[prev..c];
    assert t[x + |sep|..] == s[c + |sep|..];
  }

  /** The first piece runs to the first separator. */
  lemma {:induction false} PiecesAt(t: string, sep: string, x: nat)
    requires |sep| > 0 && Find(t, sep, 0) == Some(x)
    ensures Pieces(t, sep) == [t[..x]] + Pieces(t[x + |sep|..], sep)
  {
  }

  // ---------------------------------------------------------------------------------------
  // setConfig: the rewriter of telegraf.conf

  /** The rewriter's state: the payload sections still to be written at the end, and the
      requested section the lines are in ("" outside one). */
  datatype RewriteState = RewriteState(params: seq<SectionParams>, section: string)

  /** hasKey(name) on the payload. */
  predicate HasSection(params: seq<SectionParams>, name: string)
  {
    exists i :: 0 <= i < |params| && params[i].name == name
  }

  /** paramObj[name]: the members of the section; none when the payload lacks it, where
      hasKey then finds nothing. */
  function SectionEntries(params: seq<SectionParams>, name: string): seq<Entry>
  {
    if params == [] then []
    else if params[0].name == name then params[0].entries
    else SectionEntries(params[1..], name)
  }

  /** remove(name) on the payload. */
  function RemoveSection(params: seq<SectionParams>, name: string): (r: seq<SectionParams>)
    ensures forall x :: x in r <==> x in params && x.name != name
  {
    if params == [] then []
    else RemoveSection(params[..|params| - 1], name)
         + (if params[|params| - 1].name == name then [] else [params[|params| - 1]])
  }

  /** hasKey(key) on a section. */
  predicate HasEntry(es: seq<Entry>, key: string)
  {
    exists j :: 0 <= j < |es| && es[j].key == key
  }

  /** The line written for a member: two spaces, the key, " = " and the value's JSON text. */
  function KeyLine(e: Entry): string
  {
    "  " + e.key + " = " + e.value + "\n"
  }

  function KeyLines(es: seq<Entry>): string
  {
    if es == [] then "" else KeyLines(es[..|es| - 1]) + KeyLine(es[|es| - 1])
  }

  /** The key of a configuration line: the text before its first '=', trimmed. */
  function LineKey(line: string): string
  {
    Trim(match FindChar(line, '=', 0) case None => line case Some(k) => line[..k])
  }

  /** The scan of a line skips the character ' ' only. */
  const Blank: set<char> := {' '}

  /** The first character of the line that is not ' ' is at k. */
  predicate FirstNonBlankAt(line: string, k: nat)
  {
    k < |line| && line[k] != ' ' && forall j :: 0 <= j < k ==> line[j] == ' '
  }

  /** After leading spaces, the line starts with c. */
  predicate LeadsWith(line: string, c: char)
  {
    exists k :: 0 <= k < |line| && FirstNonBlankAt(line, k) && line[k] == c
  }

  /** After leading spaces, the line starts with neither '#' nor '['. */
  predicate LeadsWithOther(line: string)
  {
    exists k :: 0 <= k < |line| && FirstNonBlankAt(line, k) && line[k] != '#' && line[k] != '['
  }

  /** A header line naming the section name once its brackets are removed. */
  predicate HeadsSection(line: string, name: string)
  {
    LeadsWith(line, '[') && StripBrackets(line) == name
  }

  /** One line of telegraf.conf: the next state and what is written for it. An empty line is
      written as a newline and a line of spaces not at all; a comment is copied; a header is
      copied, retires the requested section it closes, and when it opens a requested section
      the section's new members follow it; any other line is copied unless it is in a
      requested section that sets its key, where only the newline is written. */
  function RewriteLine(st: RewriteState, line: string): (RewriteState, string)
  {
    if line == "" then (st, "\n")
    else match FindFirstNotOf(line, Blank, 0)
      case None => (st, "")
      case Some(i) => RewriteAt(st, line, i)
  }

  /** A line whose first character that is not ' ' is at i. */
  function RewriteAt(st: RewriteState, line: string, i: nat): (RewriteState, string)
    requires i < |line|
  {
        if line[i] == '#' then (st, line + "\n")
        else if line[i] == '[' then
          var p1 := if HasSection(st.params, st.section) then RemoveSection(st.params, st.section) else st.params;
          var name := StripBrackets(line);
          if HasSection(p1, name) then (RewriteState(p1, name), line + "\n" + KeyLines(SectionEntries(p1, name)))
          else (RewriteState(p1, ""), line + "\n")
        else if st.section == "" then (st, line + "\n")
        else if HasEntry(SectionEntries(st.params, st.section), LineKey(line)) then (st, "\n")
        else (st, line + "\n")
  }

  /** The lines of telegraf.conf in order. */
  function RewriteLines(st: RewriteState, lines: seq<string>): (RewriteState, string)
  {
    if lines == [] then (st, "")
    else
      var (s1, out1) := RewriteLines(st, lines[..|lines| - 1]);
      var (s2, w) := RewriteLine(s1, lines[|lines| - 1]);
      (s2, out1 + w)
  }

  /** The header of a section written at the end: [name] for global_tags and agent, [[name]]
      for the others. */
  function NewSectionHeader(name: string): string
  {
    if name != "global_tags" && name != "agent" then "[" + ("[" + name + "]") + "]" else "[" + name + "]"
  }

  /** A section written at the end: its header line and its members. */
  function SectionBlock(p: SectionParams): string
  {
    NewSectionHeader(p.name) + "\n" + KeyLines(p.entries)
  }

  /** The sections still pending, each as its header and its members. */
  function PendingSections(params: seq<SectionParams>): string
  {
    if params == [] then ""
    else PendingSections(params[..|params| - 1]) + SectionBlock(params[|params| - 1])
  }

  /** The text setConfig writes to tmpTelegraf.conf. */
  function Rewritten(lines: seq<string>, params: seq<SectionParams>): string
  {
    var (st, body) := RewriteLines(RewriteState(params, ""), lines);
    body + PendingSections(st.params)
  }

  /** The scan of a line for its first character that is not ' '. */
  method FirstNonBlank(line: string) returns (r: Option<nat>)
    ensures r == FindFirstNotOf(line, Blank, 0)
  {
    var i := 0;
    while i < |line|
      invariant 0 <= i <= |line|
      invariant forall j :: 0 <= j < i ==> line[j] == ' '
    {
      if line[i] != ' ' {
        FindFirstNotOfIs(line, Blank, 0, i);
        return Some(i);
      }
      i := i + 1;
    }
    return None;
  }

  /** The loop over the members of a section, writing one line each. */
  method WriteKeyLines(es: seq<Entry>) returns (text: string)
    ensures text == KeyLines(es)
  {
    text := "";
    var k := 0;
    while k < |es|
      invariant 0 <= k <= |es|
      invariant text == KeyLines(es[..k])
    {
      var newValue := "  " + es[k].key + " = " + es[k].value;
      text := text + (newValue + "\n");
      assert es[..k + 1][..k] == es[..k];
      k := k + 1;
    }
    assert es[..k] == es;
  }

  /** The body of the reading loop for one line. */
  method RewriteOne(params: seq<SectionParams>, section: string, line: string)
    returns (params': seq<SectionParams>, section': string, written: string)
    ensures (RewriteState(params', section'), written) == RewriteLine(RewriteState(params, section), line)
  {
    params', section' := params, section;
    if line == "" {
      return params', section', "\n";
    }
    var i := FirstNonBlank(line);
    written := "";
    if i.None? {
      return;
    }
    var c := line[i.value];
    assert RewriteLine(RewriteState(params, section), line) == RewriteAt(RewriteState(params, section), line, i.value);
    if c == '#' {
      written := line + "\n";
    } else if c == '[' {
      written := line + "\n";
      if HasSection(params', section') {
        params' := RemoveSection(params', section');
      }
      section' := StripBrackets(line);
      if HasSection(params', section') {
        var keyLines := WriteKeyLines(SectionEntries(params', section'));
        written := written + keyLines;
      } else {
        section' := "";
      }
    } else {
      if section' == "" || !HasEntry(SectionEntries(params', section'), LineKey(line)) {
        written := line;
      }
      written := written + "\n";
      assert "" + "\n" == "\n";
    }
  }

  /** The closing loop: the sections still pending, with their headers. */
  method WritePendingSections(params: seq<SectionParams>) returns (text: string)
    ensures text == PendingSections(params)
  {
    text := "";
    var k := 0;
    while k < |params|
      invariant 0 <= k <= |params|
      invariant text == PendingSections(params[..k])
    {
      var newSection := "[" + params[k].name + "]";
      if params[k].name != "global_tags" && params[k].name != "agent" {
        newSection := "[" + newSection + "]";
      }
      var keyLines := WriteKeyLines(params[k].entries);
      text := text + (newSection + "\n" + keyLines);
      assert params[..k + 1][..k] == params[..k];
      k := k + 1;
    }
    assert params[..k] == params;
  }

  /** The rewriter of setConfig: telegraf.conf's lines in, tmpTelegraf.conf's text out. */
  method RewriteConfig(lines: seq<string>, params: seq<SectionParams>) returns (out: string)
    ensures out == Rewritten(lines, params)
  {
    var ps, section := params, "";
    out := "";
    var n := 0;
    while n < |lines|
      invariant 0 <= n <= |lines|
      invariant (RewriteState(ps, section), out) == RewriteLines(RewriteState(params, ""), lines[..n])
    {
      var written;
      ps, section, written := RewriteOne(ps, section, lines[n]);
      assert lines[..n + 1][..n] == lines[..n];
      out := out + written;
      n := n + 1;
    }
    assert lines[..n] == lines;
    var pending := WritePendingSections(ps);
    out := out + pending;
  }

  lemma {:induction false} AtFirstNonBlank(st: RewriteState, line: string, k: nat)
    requires FirstNonBlankAt(line, k)
    ensures RewriteLine(st, line) == RewriteAt(st, line, k)
  {
    FindFirstNotOfIs(line, Blank, 0, k);
  }

  /** What is written for each kind of line other than a header. */
  lemma {:induction false} RewriteLineCases(st: RewriteState, line: string)
    ensures line == "" ==> RewriteLine(st, line) == (st, "\n")
    ensures line != "" && (forall j :: 0 <= j < |line| ==> line[j] == ' ') ==> RewriteLine(st, line) == (st, "")
    ensures LeadsWith(line, '#') ==> RewriteLine(st, line) == (st, line + "\n")
    ensures LeadsWithOther(line) ==> RewriteLine(st, line).0 == st
    ensures LeadsWithOther(line) && st.section == "" ==> RewriteLine(st, line).1 == line + "\n"
    ensures LeadsWithOther(line) && st.section != "" && HasEntry(SectionEntries(st.params, st.section), LineKey(line))
            ==> RewriteLine(st, line).1 == "\n"
    ensures LeadsWithOther(line) && st.section != "" && !HasEntry(SectionEntries(st.params, st.section), LineKey(line))
            ==> RewriteLine(st, line).1 == line + "\n"
  {
    if k: nat :| k < |line| && FirstNonBlankAt(line, k) {
      AtFirstNonBlank(st, line, k);
    }
  }

  /** A header retires the requested section it closes and opens the one it names when the
      payload has it, writing that section's members right after it. */
  lemma {:induction false} HeaderLine(st: RewriteState, line: string)
    requires LeadsWith(line, '[')
    ensures !HasSection(RewriteLine(st, line).0.params, st.section)
    ensures forall x :: x in RewriteLine(st, line).0.params <==> x in st.params && x.name != st.section
    ensures HasSection(RewriteLine(st, line).0.params, StripBrackets(line)) ==>
              && RewriteLine(st, line).0.section == StripBrackets(line)
              && RewriteLine(st, line).1
                 == line + "\n" + KeyLines(SectionEntries(RewriteLine(st, line).0.params, StripBrackets(line)))
    ensures !HasSection(RewriteLine(st, line).0.params, StripBrackets(line)) ==>
              RewriteLine(st, line) == (RewriteState(RewriteLine(st, line).0.params, ""), line + "\n")
  {
    var k: nat :| k < |line| && FirstNonBlankAt(line, k) && line[k] == '[';
    AtFirstNonBlank(st, line, k);
  }

  /** A line that does not head section n keeps n pending and does not enter it. */
  lemma {:induction false} RewriteLineKeeps(st: RewriteState, line: string, n: string)
    requires n != "" && st.section != n && HasSection(st.params, n)
    requires !HeadsSection(line, n)
    ensures HasSection(RewriteLine(st, line).0.params, n)
    ensures RewriteLine(st, line).0.section != n
  {
    if line != "" && FindFirstNotOf(line, Blank, 0).Some? {
      var k := FindFirstNotOf(line, Blank, 0).value;
      assert FirstNonBlankAt(line, k);
      if line[k] == '[' {
        assert LeadsWith(line, '[');
        HeaderLine(st, line);
        var i :| 0 <= i < |st.params| && st.params[i].name == n;
        assert st.params[i] in RewriteLine(st, line).0.params;
      }
    }
  }

  lemma {:induction false} RewriteLinesKeeps(st: RewriteState, lines: seq<string>, n: string)
    requires n != "" && st.section != n && HasSection(st.params, n)
    requires forall l :: l in lines ==> !HeadsSection(l, n)
    ensures HasSection(RewriteLines(st, lines).0.params, n)
    ensures RewriteLines(st, lines).0.section != n
  {
    if lines != [] {
      var front := lines[..|lines| - 1];
      assert forall l :: l in front ==> l in lines;
      RewriteLinesKeeps(st, front, n);
      RewriteLineKeeps(RewriteLines(st, front).0, lines[|lines| - 1], n);
    }
  }

  /** The sections left pending all come from the payload. */
  lemma {:induction false} RewriteLinesSubset(st: RewriteState, lines: seq<string>)
    ensures forall x :: x in RewriteLines(st, lines).0.params ==> x in st.params
  {
    if lines != [] {
      var front := lines[..|lines| - 1];
      RewriteLinesSubset(st, front);
      var s1 := RewriteLines(st, front).0;
      var line := lines[|lines| - 1];
      if line != "" && FindFirstNotOf(line, Blank, 0).Some? {
        var k := FindFirstNotOf(line, Blank, 0).value;
        assert FirstNonBlankAt(line, k);
        if line[k] == '[' {
          assert LeadsWith(line, '[');
          HeaderLine(s1, line);
        }
      }
    }
  }

  /** Every pending section is written at the end with its header and members. */
  lemma {:induction false} PendingSectionsHas(ps: seq<SectionParams>, x: SectionParams)
    requires x in ps
    ensures exists pre, post :: PendingSections(ps) == pre + SectionBlock(x) + post
  {
    var front, p := ps[..|ps| - 1], ps[|ps| - 1];
    if x == p {
      assert PendingSections(ps) == PendingSections(front) + SectionBlock(x) + "";
    } else {
      assert x in front by {
        var i :| 0 <= i < |ps| && ps[i] == x;
        assert i < |ps| - 1 && front[i] == x;
      }
      PendingSectionsHas(front, x);
      var pre, post :| PendingSections(front) == pre + SectionBlock(x) + post;
      AppendAssoc(pre + SectionBlock(x), post, SectionBlock(p));
    }
  }

  /** A requested section whose header telegraf.conf lacks is appended to the file. */
  lemma {:induction false} UnheadedSectionAppended(lines: seq<string>, params: seq<SectionParams>, n: string)
    requires n != "" && HasSection(params, n)
    requires forall l :: l in lines ==> !HeadsSection(l, n)
    ensures exists e, pre, post ::
              && SectionParams(n, e) in params
              && Rewritten(lines, params) == pre + SectionBlock(SectionParams(n, e)) + post
  {
    var st := RewriteState(params, "");
    RewriteLinesKeeps(st, lines, n);
    RewriteLinesSubset(st, lines);
    var (final, body) := RewriteLines(st, lines);
    var i :| 0 <= i < |final.params| && final.params[i].name == n;
    var x := final.params[i];
    PendingSectionsHas(final.params, x);
    var pre, post :| PendingSections(final.params) == pre + SectionBlock(x) + post;
    assert SectionParams(n, x.entries) == x;
    assert Rewritten(lines, params) == (body + pre) + SectionBlock(x) + post by {
      AppendAssoc(body, pre + SectionBlock(x), post);
      AppendAssoc(body, pre, SectionBlock(x));
    }
  }

  /** A header [name] outside a section the payload has, naming one it has. */
  lemma {:induction false} OpenHeader(ps: seq<SectionParams>, section: string, name: string)
    requires '[' !in name && ']' !in name
    requires !HasSection(ps, section) && HasSection(ps, name)
    ensures RewriteLine(RewriteState(ps, section), "[" + name + "]")
            == (RewriteState(ps, name), "[" + name + "]" + "\n" + KeyLines(SectionEntries(ps, name)))
  {
    var h := "[" + name + "]";
    StripBracketsOf(name);
    assert FirstNonBlankAt(h, 0);
    AtFirstNonBlank(RewriteState(ps, section), h, 0);
  }

  /** A header [name] closing a section of the payload, naming none left in it. */
  lemma {:induction false} CloseHeader(ps: seq<SectionParams>, section: string, name: string)
    requires '[' !in name && ']' !in name
    requires HasSection(ps, section) && !HasSection(RemoveSection(ps, section), name)
    ensures RewriteLine(RewriteState(ps, section), "[" + name + "]")
            == (RewriteState(RemoveSection(ps, section), ""), "[" + name + "]" + "\n")
  {
    var h := "[" + name + "]";
    StripBracketsOf(name);
    assert FirstNonBlankAt(h, 0);
    AtFirstNonBlank(RewriteState(ps, section), h, 0);
  }

  /** A one-header file whose section the payload sets: the section's members are written
      under the header, and the section is written a second time at the end because only a
      later header retires it. */
  lemma {:induction false} LastSectionTwice(name: string, es: seq<Entry>)
    requires name != "" && '[' !in name && ']' !in name
    ensures Rewritten(["[" + name + "]"], [SectionParams(name, es)])
            == "[" + name + "]" + "\n" + KeyLines(es) + SectionBlock(SectionParams(name, es))
  {
    var h, ps := "[" + name + "]", [SectionParams(name, es)];
    var headed := h + "\n" + KeyLines(es);
    assert HasSection(ps, name) by { assert ps[0].name == name; }
    OpenHeader(ps, "", name);
    assert RewriteLines(RewriteState(ps, ""), [h]) == (RewriteState(ps, name), headed) by {
      assert [h][..0] == [];
      assert "" + headed == headed;
    }
    PendingOne(ps[0]);
    RewrittenIs([h], ps, RewriteState(ps, name), headed);
  }

  lemma {:induction false} PendingOne(p: SectionParams)
    ensures PendingSections([p]) == SectionBlock(p)
  {
    assert [p][..0] == [];
    assert PendingSections([p]) == "" + SectionBlock(p);
  }

  lemma {:induction false} RewrittenIs(lines: seq<string>, params: seq<SectionParams>, st: RewriteState, body: string)
    requires RewriteLines(RewriteState(params, ""), lines) == (st, body)
    ensures Rewritten(lines, params) == body + PendingSections(st.params)
  {
  }

  /** The same section followed by another header: the section is retired and not written
      again. */
  lemma {:induction false} SectionRetiredAtNextHeader(name: string, other: string, es: seq<Entry>)
    requires name != "" && '[' !in name && ']' !in name
    requires other != name && '[' !in other && ']' !in other
    ensures Rewritten(["[" + name + "]", "[" + other + "]"], [SectionParams(name, es)])
            == "[" + name + "]" + "\n" + KeyLines(es) + ("[" + other + "]" + "\n")
  {
    var h, g, ps := "[" + name + "]", "[" + other + "]", [SectionParams(name, es)];
    var headed := h + "\n" + KeyLines(es);
    assert HasSection(ps, name) by { assert ps[0].name == name; }
    OpenHeader(ps, "", name);
    assert RewriteLines(RewriteState(ps, ""), [h]) == (RewriteState(ps, name), headed) by {
      assert [h][..0] == [];
      assert "" + headed == headed;
    }
    assert RemoveSection(ps, name) == [] by { assert ps[..0] == []; }
    CloseHeader(ps, name, other);
    assert [h, g][..1] == [h];
    assert RewriteLines(RewriteState(ps, ""), [h, g]) == (RewriteState([], ""), headed + (g + "\n"));
    RewrittenIs([h, g], ps, RewriteState([], ""), headed + (g + "\n"));
    assert headed + (g + "\n") + PendingSections([]) == headed + (g + "\n");
  }

  // ---------------------------------------------------------------------------------------
  // setConfig: the handler

  const TelegrafConfPath: string := "/etc/telegraf/telegraf.conf"
  const TmpTelegrafConfPath: string := "/etc/telegraf/tmpTelegraf.conf"

  /** What "telegraf -test" prints when it rejects a configuration. */
  const TestErrorMarker: string := "E! [telegraf] Error"

  /** The replies of setConfig: the invalid-parameters error, errorCode 5 for an unreadable
      telegraf.conf, errorCode 4 "Invalid configurations" for a rewrite telegraf rejects, and
      success. */
  datatype SetConfigOutcome = ParamsRejected | ConfFileUnreadable | ConfigRejected | ConfigApplied

  /** setConfig over a file system given as a map from paths to texts. test is what
      "telegraf --config tmpTelegraf.conf -test 2>&1" prints for the text of
      tmpTelegraf.conf. */
  method SetConfig(params: seq<SectionParams>, files: map<string, string>, test: string -> string)
    returns (outcome: SetConfigOutcome, files': map<string, string>)
    ensures !ValidParams(params) ==> outcome == ParamsRejected && files' == files
    ensures ValidParams(params) && TelegrafConfPath !in files ==>
              outcome == ConfFileUnreadable && files' == files[TmpTelegrafConfPath := ""]
    ensures ValidParams(params) && TelegrafConfPath in files ==>
              var text := Rewritten(GetLines(files[TelegrafConfPath]), params);
              if Contains(test(text), TestErrorMarker)
              then outcome == ConfigRejected && files' == files[TmpTelegrafConfPath := text]
              else outcome == ConfigApplied && files' == (files - {TmpTelegrafConfPath})[TelegrafConfPath := text]
  {
    var ok := CheckParams(params);
    if !ok {
      return ParamsRejected, files;
    }
    files' := files[TmpTelegrafConfPath := ""];
    if TelegrafConfPath !in files {
      return ConfFileUnreadable, files';
    }
    var text := RewriteConfig(GetLines(files[TelegrafConfPath]), params);
    files' := files'[TmpTelegrafConfPath := text];
    var cmdResult := test(text);
    if Contains(cmdResult, TestErrorMarker) {
      outcome := ConfigRejected;
    } else {
      files' := (files' - {TmpTelegrafConfPath})[TelegrafConfPath := text];
      outcome := ConfigApplied;
      assert (files' - {TmpTelegrafConfPath})[TelegrafConfPath := text]
          == (files - {TmpTelegrafConfPath})[TelegrafConfPath := text];
    }
  }

  // ---------------------------------------------------------------------------------------
  // getConfig

  /** The configuration getConfig replies with: sections by name, each mapping its keys to
      the text of their values. */
  type Config = map<string, map<string, string>>

  /** The reader's state: the current section and what has been read. */
  datatype ReadState = ReadState(section: string, config: Config)

  /** The number of double quotes in a text. */
  function QuoteCount(s: string): nat
  {
    if s == [] then 0 else QuoteCount(s[..|s| - 1]) + (if s[|s| - 1] == '"' then 1 else 0)
  }

  /** An '=' preceded by an even number of double quotes, so outside any quoted text. */
  predicate UnquotedEquals(s: string, i: nat)
    requires i < |s|
  {
    s[i] == '=' && QuoteCount(s[..i + 1]) % 2 == 0
  }

  lemma {:induction false} UnquotedOfFront(line: string)
    requires line != []
    ensures forall i :: 0 <= i < |line| - 1 ==> UnquotedEquals(line[..|line| - 1], i) == UnquotedEquals(line, i)
  {
    forall i | 0 <= i < |line| - 1
      ensures UnquotedEquals(line[..|line| - 1], i) == UnquotedEquals(line, i)
    {
      assert line[..|line| - 1][..i + 1] == line[..i + 1];
    }
  }

  /** The line with every unquoted '=' turned into ':'. */
  function ConvertEquals(line: string): (r: string)
    ensures |r| == |line|
    ensures forall i :: 0 <= i < |line| ==> r[i] == if UnquotedEquals(line, i) then ':' else line[i]
  {
    if line == [] then []
    else
      var front := line[..|line| - 1];
      UnquotedOfFront(line);
      ConvertEquals(front) + [if UnquotedEquals(line, |line| - 1) then ':' else line[|line| - 1]]
  }

  /** The loop that counts the quotes and replaces the unquoted '=' characters. */
  method ReplaceEqualsOutsideQuotes(line: string) returns (r: string)
    ensures r == ConvertEquals(line)
  {
    r := line;
    var doubleQuotationCount := 0;
    var i := 0;
    while i < |line|
      invariant 0 <= i <= |line| && |r| == |line|
      invariant doubleQuotationCount == QuoteCount(line[..i])
      invariant forall j :: 0 <= j < i ==> r[j] == ConvertEquals(line)[j]
      invariant forall j :: i <= j < |line| ==> r[j] == line[j]
    {
      assert line[..i + 1][..i] == line[..i];
      if line[i] == '"' {
        doubleQuotationCount := doubleQuotationCount + 1;
      }
      if doubleQuotationCount % 2 == 0 && line[i] == '=' {
        r := r[i := ':'];
      }
      i := i + 1;
    }
    assert line[..i] == line;
  }

  /** The key and the value of a converted line: the text before and after its first ':';
      with no ':' both are the whole line, as the int index -1 makes the two substr calls
      read it. */
  function SplitPair(c: string): (string, string)
  {
    match FindChar(c, ':', 0)
    case None => (c, c)
    case Some(k) => (c[..k], c[k + 1..])
  }

  /** One line of telegraf.conf. Comments and lines of spaces are skipped; a header starts a
      section, emptying it; a line holding '=' sets a key of the current section, both parts
      trimmed, and is dropped when the current section has not been started; any other line
      is skipped. */
  function ConfigLine(st: ReadState, line: string): ReadState
  {
    match FindFirstNotOf(line, Blank, 0)
    case None => st
    case Some(i) =>
      if line[i] == '#' then st
      else if line[i] == '[' then
        var name := Trim(StripBrackets(line));
        ReadState(name, st.config[name := map[]])
      else if FindChar(line, '=', 0).None? then st
      else
        var (key, value) := SplitPair(ConvertEquals(line));
        if st.section in st.config
        then ReadState(st.section, st.config[st.section := st.config[st.section][Trim(key) := Trim(value)]])
        else st
  }

  function ConfigLines(st: ReadState, lines: seq<string>): ReadState
  {
    if lines == [] then st else ConfigLine(ConfigLines(st, lines[..|lines| - 1]), lines[|lines| - 1])
  }

  /** The configuration read from the lines of telegraf.conf. */
  function ReadConfig(lines: seq<string>): Config
  {
    ConfigLines(ReadState("", map[]), lines).config
  }

  /** The body of the reading loop for one line. */
  method ReadOne(section: string, config: Config, line: string) returns (section': string, config': Config)
    ensures ReadState(section', config') == ConfigLine(ReadState(section, config), line)
  {
    section', config' := section, config;
    var i := FirstNonBlank(line);
    if i.None? || line[i.value] == '#' {
      return;
    }
    if line[i.value] == '[' {
      section' := Trim(StripBrackets(line));
      config' := config'[section' := map[]];
      return;
    }
    if FindChar(line, '=', 0).None? {
      return;
    }
    var converted := ReplaceEqualsOutsideQuotes(line);
    var (key, value) := SplitPair(converted);
    if section' in config' {
      config' := config'[section' := config'[section'][Trim(key) := Trim(value)]];
    }
  }

  datatype GetConfigReply = ConfigFileUnreadable | ConfigReply(config: Config)

  /** getConfig over a file system given as a map from paths to texts. */
  method GetConfig(files: map<string, string>) returns (reply: GetConfigReply)
    ensures TelegrafConfPath !in files ==> reply == ConfigFileUnreadable
    ensures TelegrafConfPath in files ==> reply == ConfigReply(ReadConfig(GetLines(files[TelegrafConfPath])))
  {
    if TelegrafConfPath !in files {
      return ConfigFileUnreadable;
    }
    var lines := GetLines(files[TelegrafConfPath]);
    var section, replyConfig := "", map[];
    var n := 0;
    while n < |lines|
      invariant 0 <= n <= |lines|
      invariant ReadState(section, replyConfig) == ConfigLines(ReadState("", map[]), lines[..n])
    {
      section, replyConfig := ReadOne(section, replyConfig, lines[n]);
      assert lines[..n + 1][..n] == lines[..n];
      n := n + 1;
    }
    assert lines[..n] == lines;
    return ConfigReply(replyConfig);
  }

  lemma {:induction false} QuoteCountAppend(a: string, b: string)
    ensures QuoteCount(a + b) == QuoteCount(a) + QuoteCount(b)
    decreases |b|
  {
    if b != [] {
      assert (a + b)[..|a + b| - 1] == a + b[..|b| - 1];
      assert (a + b)[|a + b| - 1] == b[|b| - 1];
      QuoteCountAppend(a, b[..|b| - 1]);
    } else {
      assert a + b == a;
    }
  }

  lemma {:induction false} QuoteCountNone(s: string)
    requires '"' !in s
    ensures QuoteCount(s) == 0
  {
    if s != [] {
      QuoteCountNone(s[..|s| - 1]);
    }
  }

  /** The header names among a list of lines. */
  function HeaderNames(lines: seq<string>): set<string>
  {
    set l | l in lines && LeadsWith(l, '[') :: Trim(StripBrackets(l))
  }

  /** Comments and lines of spaces leave the reader as it is. */
  lemma {:induction false} ConfigLineSkips(st: ReadState, line: string)
    ensures (forall j :: 0 <= j < |line| ==> line[j] == ' ') ==> ConfigLine(st, line) == st
    ensures LeadsWith(line, '#') ==> ConfigLine(st, line) == st
  {
    if k: nat :| k < |line| && FirstNonBlankAt(line, k) {
      FindFirstNotOfIs(line, Blank, 0, k);
    }
  }

  /** A header starts its section afresh, dropping what an earlier header of the same name
      collected. */
  lemma {:induction false} ConfigLineHeader(st: ReadState, line: string)
    requires LeadsWith(line, '[')
    ensures ConfigLine(st, line) == ReadState(Trim(StripBrackets(line)), st.config[Trim(StripBrackets(line)) := map[]])
  {
    var k: nat :| k < |line| && FirstNonBlankAt(line, k) && line[k] == '[';
    FindFirstNotOfIs(line, Blank, 0, k);
  }

  /** Any other line keeps the section and the set of sections; it changes nothing without an
      '=' or outside a started section. */
  lemma {:induction false} ConfigLineOther(st: ReadState, line: string)
    requires LeadsWithOther(line)
    ensures '=' !in line ==> ConfigLine(st, line) == st
    ensures st.section !in st.config ==> ConfigLine(st, line) == st
    ensures ConfigLine(st, line).section == st.section && ConfigLine(st, line).config.Keys == st.config.Keys
  {
    var k: nat :| k < |line| && FirstNonBlankAt(line, k) && line[k] != '#' && line[k] != '[';
    FindFirstNotOfIs(line, Blank, 0, k);
    if '=' !in line {
      FindCharNone(line, '=', 0);
    }
  }

  /** The sections getConfig replies with are exactly the names of the headers of
      telegraf.conf, brackets removed and trimmed. */
  lemma {:induction false} ConfigLinesSections(st: ReadState, lines: seq<string>)
    ensures ConfigLines(st, lines).config.Keys == st.config.Keys + HeaderNames(lines)
  {
    if lines != [] {
      var front, line := lines[..|lines| - 1], lines[|lines| - 1];
      ConfigLinesSections(st, front);
      ConfigLineKeys(ConfigLines(st, front), line);
      assert lines == front + [line];
      HeaderNamesSnoc(front, line);
    }
  }

  /** One line adds the name of its header, if it is one, to the sections. */
  lemma {:induction false} ConfigLineKeys(st: ReadState, line: string)
    ensures ConfigLine(st, line).config.Keys == st.config.Keys + HeaderNames([line])
  {
    HeaderNamesOne(line);
    if line != "" && FindFirstNotOf(line, Blank, 0).Some? {
      var k := FindFirstNotOf(line, Blank, 0).value;
      assert FirstNonBlankAt(line, k);
      if line[k] == '[' {
        ConfigLineHeader(st, line);
      } else if line[k] != '#' {
        ConfigLineOther(st, line);
      } else {
        assert !LeadsWith(line, '[');
      }
    } else {
      assert !LeadsWith(line, '[');
    }
  }

  lemma {:induction false} HeaderNamesOne(line: string)
    ensures LeadsWith(line, '[') ==> HeaderNames([line]) == {Trim(StripBrackets(line))}
    ensures !LeadsWith(line, '[') ==> HeaderNames([line]) == {}
  {
  }

  lemma {:induction false} HeaderNamesSnoc(front: seq<string>, line: string)
    ensures HeaderNames(front + [line]) == HeaderNames(front) + HeaderNames([line])
  {
  }

  lemma {:induction false} ReadConfigSections(lines: seq<string>)
    ensures forall n :: n in ReadConfig(lines) <==> exists l :: l in lines && LeadsWith(l, '[') && Trim(StripBrackets(l)) == n
  {
    ConfigLinesSections(ReadState("", map[]), lines);
  }

  /** A key line in the form the rewriter writes sets the key to the value in the current
      section. */
  lemma {:induction false} ReadsKeyLine(st: ReadState, key: string, value: string)
    requires st.section in st.config
    requires key != "" && Trimmed(key) && key[0] != '#' && key[0] != '['
    requires '"' !in key && '=' !in key && ':' !in key
    requires Trimmed(value) && '=' !in value
    ensures ConfigLine(st, "  " + key + " = " + value)
            == ReadState(st.section, st.config[st.section := st.config[st.section][key := value]])
  {
    var line := "  " + key + " = " + value;
    KeyLineStart(key, value);
    ConfigLineSets(st, line, 2);
    KeyLineConverted(key, value);
    KeyLineSplit(key, value);
    TrimPadded("  ", key, " ");
    TrimPadded(" ", value, "");
    assert " " + value + "" == " " + value;
  }

  /** A line whose first non-blank character starts no comment and no header, and which
      holds an '=', sets the trimmed parts of its converted text in a started section. */
  lemma {:induction false} ConfigLineSets(st: ReadState, line: string, k: nat)
    requires FirstNonBlankAt(line, k) && line[k] != '#' && line[k] != '[' && '=' in line
    requires st.section in st.config
    ensures var (key, value) := SplitPair(ConvertEquals(line));
      ConfigLine(st, line) == ReadState(st.section, st.config[st.section := st.config[st.section][Trim(key) := Trim(value)]])
  {
    FindFirstNotOfIs(line, Blank, 0, k);
    var e :| 0 <= e < |line| && line[e] == '=';
    assert FindChar(line, '=', 0).Some?;
  }

  /** The key line starts at the key and holds an '='. */
  lemma {:induction false} KeyLineStart(key: string, value: string)
    requires key != "" && key[0] != ' '
    ensures var line := "  " + key + " = " + value;
      FirstNonBlankAt(line, 2) && line[2] == key[0] && '=' in line
  {
    var line := "  " + key + " = " + value;
    assert line[2] == key[0];
    assert line[|key| + 3] == '=';
  }

  /** Only the '=' after the key becomes ':'. */
  lemma {:induction false} KeyLineConverted(key: string, value: string)
    requires '"' !in key && '=' !in key && '=' !in value
    ensures ConvertEquals("  " + key + " = " + value) == "  " + key + " : " + value
  {
    var line := "  " + key + " = " + value;
    var e := |key| + 3;
    KeyLineLayout(key, value);
    KeyLineEqualsUnquoted(key, value);
    var c := ConvertEquals(line);
    forall j | 0 <= j < |line|
      ensures c[j] == line[e := ':'][j]
    {
      if j != e {
        assert line[j] != '=';
      }
    }
  }

  /** The key line's only '=' is the one after the key, and the wanted text has ':' there. */
  lemma {:induction false} KeyLineLayout(key: string, value: string)
    requires '=' !in key && '=' !in value
    ensures var line, e := "  " + key + " = " + value, |key| + 3;
      && e < |line| && line[e] == '='
      && (forall j :: 0 <= j < |line| && j != e ==> line[j] != '=')
      && "  " + key + " : " + value == line[e := ':']
  {
    var line, e := "  " + key + " = " + value, |key| + 3;
    forall j | 0 <= j < |line| && j != e
      ensures line[j] != '='
    {
      if 2 <= j < e - 1 {
        assert line[j] == key[j - 2];
      } else if j > e + 1 {
        assert line[j] == value[j - e - 2];
      }
    }
  }

  /** The '=' after the key has no quote before it. */
  lemma {:induction false} KeyLineEqualsUnquoted(key: string, value: string)
    requires '"' !in key && '=' !in key && '=' !in value
    ensures |key| + 3 < |"  " + key + " = " + value|
    ensures UnquotedEquals("  " + key + " = " + value, |key| + 3)
  {
    var line := "  " + key + " = " + value;
    var e := |key| + 3;
    assert line[..e + 1] == "  " + key + " =";
    QuoteCountAppend("  " + key, " =");
    QuoteCountAppend("  ", key);
    QuoteCountNone(key);
  }

  /** The first ':' of the converted line is the one after the key. */
  lemma {:induction false} KeyLineSplit(key: string, value: string)
    requires ':' !in key
    ensures SplitPair("  " + key + " : " + value) == ("  " + key + " ", " " + value)
  {
    var c := "  " + key + " : " + value;
    var e := 2 + |key| + 1;
    forall j | 0 <= j < e
      ensures c[j] != ':'
    {
      if 2 <= j < 2 + |key| { assert c[j] == key[j - 2]; }
    }
    FindCharIs(c, ':', 0, e);
    assert c[..e] == "  " + key + " ";
    assert c[e + 1..] == " " + value;
  }

  // ---------------------------------------------------------------------------------------
  // convertDataToJson

  /** The first unquoted '=' of a piece at or after i, or the piece's length. */
  function DivideFrom(s: string, i: nat): (d: nat)
    requires i <= |s|
    ensures i <= d <= |s|
    ensures d < |s| ==> UnquotedEquals(s, d)
    ensures forall j :: i <= j < d ==> !UnquotedEquals(s, j)
    decreases |s| - i
  {
    if i == |s| then |s| else if UnquotedEquals(s, i) then i else DivideFrom(s, i + 1)
  }

  /** A piece with an unquoted '='; with none the value's substr would start past the end. */
  predicate HasDivider(p: string)
  {
    DivideFrom(p, 0) < |p|
  }

  /** The key of a piece: the text before its divider. */
  function PieceKey(p: string): string
    requires HasDivider(p)
  {
    p[..DivideFrom(p, 0)]
  }

  /** The value of a piece: the text after its divider. */
  function PieceValue(p: string): string
    requires HasDivider(p)
  {
    p[DivideFrom(p, 0) + 1..]
  }

  /** Every comma-separated piece of the text has a divider. */
  predicate Convertible(data: string)
  {
    forall p :: p in Pieces(data, ",") ==> HasDivider(p)
  }

  /** The object built from pieces in order: each puts its key, later pieces overriding
      earlier ones. */
  function PutPieces(ps: seq<string>): map<string, string>
    requires forall p :: p in ps ==> HasDivider(p)
  {
    if ps == [] then map[]
    else
      var last := ps[|ps| - 1];
      PutPieces(ps[..|ps| - 1])[PieceKey(last) := PieceValue(last)]
  }

  /** convertDataToJson: "k1=v1,k2=v2" as an object of strings. */
  function DataToJson(data: string): map<string, string>
    requires Convertible(data)
  {
    PutPieces(Pieces(data, ","))
  }

  /** The loop that looks for the divider, counting quotes as it goes. */
  method FindDivider(subStr: string) returns (divideIndex: nat)
    ensures divideIndex == DivideFrom(subStr, 0)
  {
    var doubleQuotationCount := 0;
    divideIndex := 0;
    while divideIndex < |subStr|
      invariant divideIndex <= |subStr|
      invariant doubleQuotationCount == QuoteCount(subStr[..divideIndex])
      invariant DivideFrom(subStr, 0) == DivideFrom(subStr, divideIndex)
    {
      assert subStr[..divideIndex + 1][..divideIndex] == subStr[..divideIndex];
      if subStr[divideIndex] == '"' {
        doubleQuotationCount := doubleQuotationCount + 1;
      }
      if doubleQuotationCount % 2 == 0 && subStr[divideIndex] == '=' {
        return;
      }
      divideIndex := divideIndex + 1;
    }
  }

  /** Where a splitting loop that searches from prev cuts: the next separator, or the end
      of the text. */
  function Cut(s: string, sep: string, prev: nat): nat
  {
    match Find(s, sep, prev) case None => |s| case Some(c) => c
  }

  /** A splitting loop has taken the pieces done and goes on from prev. */
  predicate SplitSoFar(s: string, sep: string, prev: nat, done: seq<string>)
    requires |sep| > 0
  {
    prev <= |s| && done + Pieces(s[prev..], sep) == Pieces(s, sep)
  }

  /** One turn of a splitting loop: the text up to the cut is the next piece, and either it
      is the last or the loop goes on after the separator. */
  lemma {:induction false} PiecesLoopStep(s: string, sep: string, prev: nat, done: seq<string>, cur: nat, done': seq<string>)
    requires |sep| > 0 && SplitSoFar(s, sep, prev, done)
    requires cur == Cut(s, sep, prev) && prev <= cur <= |s| && done' == done + [s[prev..cur]]
    ensures s[prev..cur] in Pieces(s, sep)
    ensures cur == |s| ==> done' == Pieces(s, sep)
    ensures cur < |s| ==> SplitSoFar(s, sep, cur + |sep|, done')
  {
    match Find(s, sep, prev)
    case Some(c) =>
      PiecesLoopMore(s, sep, prev, done, c);
    case None =>
      assert s[prev..cur] == s[prev..];
      PiecesLoopLast(s, sep, prev, done);
  }

  /** Where a splitting loop cuts lies between prev and the end of the text. */
  lemma {:induction false} CutBounds(s: string, sep: string, prev: nat)
    requires prev <= |s|
    ensures prev <= Cut(s, sep, prev) <= |s|
  {
    if Find(s, sep, prev).Some? {
      assert OccursAt(s, sep, Find(s, sep, prev).value);
    }
  }

  lemma {:induction false} PiecesLoopLast(s: string, sep: string, prev: nat, done: seq<string>)
    requires |sep| > 0 && SplitSoFar(s, sep, prev, done) && Find(s, sep, prev).None?
    ensures s[prev..] in Pieces(s, sep)
    ensures done + [s[prev..]] == Pieces(s, sep)
  {
    PiecesStepLast(s, sep, prev);
    MiddleElement(done, Pieces(s[prev..], sep), s[prev..], [], Pieces(s, sep));
  }

  lemma {:induction false} PiecesLoopMore(s: string, sep: string, prev: nat, done: seq<string>, c: nat)
    requires |sep| > 0 && SplitSoFar(s, sep, prev, done) && Find(s, sep, prev) == Some(c)
    ensures prev <= c && c + |sep| <= |s|
    ensures s[prev..c] in Pieces(s, sep)
    ensures SplitSoFar(s, sep, c + |sep|, done + [s[prev..c]])
  {
    PiecesStepMore(s, sep, prev, c);
    MiddleElement(done, Pieces(s[prev..], sep), s[prev..c], Pieces(s[c + |sep|..], sep),
                  Pieces(s, sep));
  }

  /** An element between two parts of a sequence is in it, and the parts regroup. */
  lemma {:induction false} MiddleElement<T>(a: seq<T>, m: seq<T>, x: T, b: seq<T>, p: seq<T>)
    requires a + m == p && m == [x] + b
    ensures x in p && (a + [x]) + b == p
  {
    assert p[|a|] == x;
  }

  /** put(key, value) for one piece. */
  method PutPiece(reply: map<string, string>, subStr: string) returns (reply': map<string, string>)
    requires HasDivider(subStr)
    ensures reply' == reply[PieceKey(subStr) := PieceValue(subStr)]
  {
    var divideIndex := FindDivider(subStr);
    reply' := reply[subStr[..divideIndex] := Substr(subStr, divideIndex + 1, |subStr| - 1)];
  }

  /** One turn of convertDataToJson's loop: the piece from prev to the next comma, put. */
  method ConvertStep(data: string, comma: string, prev: nat, ghost done: seq<string>, reply: map<string, string>)
    returns (cur: nat, reply': map<string, string>, ghost done': seq<string>)
    requires |comma| > 0 && SplitSoFar(data, comma, prev, done)
    requires forall p :: p in Pieces(data, comma) ==> HasDivider(p)
    requires (forall p :: p in done ==> HasDivider(p)) && reply == PutPieces(done)
    ensures prev <= cur <= |data|
    ensures forall p :: p in done' ==> HasDivider(p)
    ensures reply' == PutPieces(done')
    ensures cur == |data| ==> done' == Pieces(data, comma)
    ensures cur < |data| ==> SplitSoFar(data, comma, cur + |comma|, done')
  {
    CutBounds(data, comma, prev);
    cur := Cut(data, comma, prev);
    var subStr := data[prev..cur];
    done' := done + [subStr];
    ConvertStepFacts(data, comma, prev, done, cur, done');
    reply' := PutPiece(reply, subStr);
  }

  /** What one turn of convertDataToJson's loop relies on: the next piece has a divider,
      and taking it keeps the loop's invariant. */
  lemma {:induction false} ConvertStepFacts(data: string, comma: string, prev: nat, done: seq<string>, cur: nat, done': seq<string>)
    requires |comma| > 0 && SplitSoFar(data, comma, prev, done)
    requires forall p :: p in Pieces(data, comma) ==> HasDivider(p)
    requires forall p :: p in done ==> HasDivider(p)
    requires cur == Cut(data, comma, prev) && prev <= cur <= |data| && done' == done + [data[prev..cur]]
    ensures HasDivider(data[prev..cur])
    ensures forall p :: p in done' ==> HasDivider(p)
    ensures PutPieces(done') == PutPieces(done)[PieceKey(data[prev..cur]) := PieceValue(data[prev..cur])]
    ensures cur == |data| ==> done' == Pieces(data, comma)
    ensures cur < |data| ==> SplitSoFar(data, comma, cur + |comma|, done')
  {
    PiecesLoopStep(data, comma, prev, done, cur, done');
    PutPiecesSnoc(done, data[prev..cur]);
  }

  lemma {:induction false} PutPiecesSnoc(done: seq<string>, p: string)
    requires (forall q :: q in done ==> HasDivider(q)) && HasDivider(p)
    ensures forall q :: q in done + [p] ==> HasDivider(q)
    ensures PutPieces(done + [p]) == PutPieces(done)[PieceKey(p) := PieceValue(p)]
  {
    assert (done + [p])[..|done|] == done;
  }

  /** The splitting loop of convertDataToJson. */
  method ConvertDataToJson(data: string) returns (reply: map<string, string>)
    requires Convertible(data)
    ensures reply == DataToJson(data)
  {
    reply := map[];
    var prev := 0;
    ghost var done: seq<string> := [];
    var divider := ",";
    assert data[0..] == data;
    while true
      invariant SplitSoFar(data, divider, prev, done)
      invariant forall p :: p in done ==> HasDivider(p)
      invariant reply == PutPieces(done)
      decreases |data| - prev
    {
      var cur;
      cur, reply, done := ConvertStep(data, divider, prev, done, reply);
      if cur == |data| {
        break;
      }
      prev := cur + |divider|;
    }
  }

  /** The keys of the object are the keys of the pieces. */
  lemma {:induction false} PutPiecesKeys(ps: seq<string>)
    requires forall p :: p in ps ==> HasDivider(p)
    ensures forall k :: k in PutPieces(ps) <==> exists i :: 0 <= i < |ps| && PieceKey(ps[i]) == k
  {
    if ps != [] {
      var front := ps[..|ps| - 1];
      assert forall p :: p in front ==> p in ps;
      PutPiecesKeys(front);
      assert forall i :: 0 <= i < |front| ==> front[i] == ps[i];
    }
  }

  /** A key holds the value of the last piece that names it. */
  lemma {:induction false} PutPiecesLastWins(ps: seq<string>, i: nat)
    requires forall p :: p in ps ==> HasDivider(p)
    requires i < |ps| && forall j :: i < j < |ps| ==> PieceKey(ps[j]) != PieceKey(ps[i])
    ensures PieceKey(ps[i]) in PutPieces(ps) && PutPieces(ps)[PieceKey(ps[i])] == PieceValue(ps[i])
  {
    if i < |ps| - 1 {
      var front := ps[..|ps| - 1];
      assert forall p :: p in front ==> p in ps;
      assert forall j :: i < j < |front| ==> front[j] == ps[j];
      PutPiecesLastWins(front, i);
    }
  }

  /** One "key=value" without commas is an object with that one member. */
  lemma {:induction false} DataToJsonPair(k: string, v: string)
    requires '"' !in k && '=' !in k && ',' !in k && ',' !in v
    ensures Convertible(k + "=" + v)
    ensures DataToJson(k + "=" + v) == map[k := v]
  {
    var p := k + "=" + v;
    forall j | 0 <= j
      ensures !OccursAt(p, ",", j)
    {
      if j + 1 <= |p| {
        assert p[j..j + 1] == [p[j]];
        if j < |k| { assert p[j] == k[j]; } else if j > |k| { assert p[j] == v[j - |k| - 1]; }
      }
    }
    assert Pieces(p, ",") == [p];
    forall j | 0 <= j < |k|
      ensures !UnquotedEquals(p, j)
    {
      assert p[j] == k[j];
    }
    assert QuoteCount(p[..|k| + 1]) == 0 by {
      assert p[..|k| + 1] == k + "=";
      QuoteCountAppend(k, "=");
      QuoteCountNone(k);
    }
    assert UnquotedEquals(p, |k|);
    assert DivideFrom(p, 0) == |k|;
    assert PieceKey(p) == k && PieceValue(p) == v;
    assert [p][..0] == [];
    assert PutPieces([p]) == map[][k := v];
  }

  // ---------------------------------------------------------------------------------------
  // getData: the command

  const InputFilterOption: string := " --input-filter "
  const TestOption: string := " -test 2>&1"

  /** objectSize() > 0. */
  predicate HasMembers(v: JValue)
  {
    v.JObject? && |v.fields| > 0
  }

  /** The payload's "inputs" through asString(), in order. */
  function InputNames(param: JValue): seq<string>
  {
    AsStrings(Items(Get(param, "inputs")))
  }

  /** The command getData runs: the input filter is added for any payload with a member, and
      lists the inputs joined with ':'. */
  function DataCommand(param: JValue): string
  {
    "telegraf" + (if HasMembers(param) then InputFilterOption + Join(InputNames(param), ":") else "") + TestOption
  }

  lemma {:induction false} JoinSnoc(xs: seq<string>, x: string, sep: string)
    requires |xs| >= 1
    ensures Join(xs + [x], sep) == Join(xs, sep) + sep + x
    decreases |xs|
  {
    if |xs| == 1 {
      assert (xs + [x])[1..] == [x];
    } else {
      assert (xs + [x])[1..] == xs[1..] + [x];
      JoinSnoc(xs[1..], x, sep);
      Regroup(xs[0] + sep, Join(xs[1..], sep), sep, x);
      AppendAssoc(xs[0], sep, Join(xs[1..], sep));
    }
  }

  /** What the loop has appended after i inputs: them joined with ':', and a ':' unless
      the last one was appended. */
  function Listed(names: seq<string>, i: nat): string
    requires i <= |names|
  {
    if i == 0 then "" else Join(names[..i], ":") + (if i < |names| then ":" else "")
  }

  lemma {:induction false} ListedStep(names: seq<string>, i: nat)
    requires i < |names|
    ensures Listed(names, i + 1) == Listed(names, i) + names[i] + (if i + 1 < |names| then ":" else "")
  {
    assert names[..i + 1] == names[..i] + [names[i]];
    if i == 0 {
      assert Join(names[..1], ":") == names[0];
    } else {
      JoinSnoc(names[..i], names[i], ":");
    }
  }

  /** One turn of the loop: the input's name, and ':' before the next one. */
  method AppendInput(tmpArguments: string, ghost names: seq<string>, i: nat, size: nat, value: string)
    returns (t: string)
    requires size == |names| && i < size && value == names[i]
    requires tmpArguments == InputFilterOption + Listed(names, i)
    ensures t == InputFilterOption + Listed(names, i + 1)
  {
    ListedStep(names, i);
    t := tmpArguments + value;
    if i < size - 1 {
      t := t + ":";
      Regroup(InputFilterOption, Listed(names, i), value, ":");
    } else {
      AppendAssoc(InputFilterOption, Listed(names, i), value);
      assert Listed(names, i) + value + "" == Listed(names, i) + value;
    }
  }

  /** The loop that appends the inputs to the option. */
  method BuildDataCommand(param: JValue) returns (tmpCmd: string)
    ensures tmpCmd == DataCommand(param)
  {
    tmpCmd := "telegraf";
    var tmpArguments := InputFilterOption;
    if HasMembers(param) {
      var tmpArr := Items(Get(param, "inputs"));
      ghost var names := InputNames(param);
      var i := 0;
      assert InputFilterOption + "" == InputFilterOption;
      while i < |tmpArr|
        invariant 0 <= i <= |tmpArr|
        invariant tmpArguments == InputFilterOption + Listed(names, i)
      {
        tmpArguments := AppendInput(tmpArguments, names, i, |tmpArr|, AsString(tmpArr[i]));
        i := i + 1;
      }
      assert names[..i] == names;
      tmpCmd := tmpCmd + tmpArguments;
    }
    tmpCmd := tmpCmd + TestOption;
  }

  /** The filter lists the requested inputs: splitting it at ':' gives them back when no name
      holds a ':'. A payload with members but no inputs gets an empty filter. */
  lemma {:induction false} InputFilterRoundTrip(param: JValue)
    requires HasMembers(param) && |InputNames(param)| >= 1
    requires forall i :: 0 <= i < |InputNames(param)| ==> ':' !in InputNames(param)[i]
    ensures DataCommand(param) == "telegraf" + (InputFilterOption + Join(InputNames(param), ":")) + TestOption
    ensures SplitOn(Join(InputNames(param), ":"), ':') == InputNames(param)
  {
    assert ":" == [':'];
    SplitOnJoin(InputNames(param), ':');
  }

  lemma {:induction false} EmptyInputFilter(param: JValue)
    requires HasMembers(param) && !HasKey(param, "inputs")
    ensures DataCommand(param) == "telegraf" + InputFilterOption + TestOption
  {
    assert "telegraf" + (InputFilterOption + "") == "telegraf" + InputFilterOption;
  }

  lemma {:induction false} PlainTestCommand(param: JValue)
    requires !HasMembers(param)
    ensures DataCommand(param) == "telegraf" + TestOption
  {
    assert "telegraf" + "" == "telegraf";
  }

  // ---------------------------------------------------------------------------------------
  // getData: the output

  /** An index returned by find or rfind stored in an int: npos becomes -1. */
  function IntIndex(o: Option<nat>): int
  {
    match o case None => -1 case Some(k) => k
  }

  /** std::string::rfind(c): the last occurrence. */
  function RFindChar(s: string, c: char): (r: Option<nat>)
    ensures r.Some? ==> r.value < |s| && s[r.value] == c && forall j :: r.value < j < |s| ==> s[j] != c
    ensures r.None? ==> forall j :: 0 <= j < |s| ==> s[j] != c
  {
    if s == [] then None
    else if s[|s| - 1] == c then Some(|s| - 1)
    else RFindChar(s[..|s| - 1], c)
  }

  /** The four texts getData cuts a record of line protocol into. */
  datatype RecordParts = RecordParts(title: string, tags: string, fields: string, time: string)

  /** The cuts of a record: the header runs to the first ' ', the title to the header's first
      ',' and the tags from there to the end; the fields run to the last ' ', and the time
      from there to the end less its last character. A missing ' ' or ',' is npos, which
      -1 stands for in the int arithmetic, and which becomes 0 once incremented. */
  function CutRecord(sub: string): RecordParts
  {
    var hi := IntIndex(FindChar(sub, ' ', 0));
    var header := Substr(sub, 0, hi);
    var comma := FindChar(header, ',', 0);
    var title := Substr(header, 0, IntIndex(comma));
    var tags := Substr(header, match comma case None => 0 case Some(c) => c + 1, |header| - 1);
    var ti := IntIndex(RFindChar(sub, ' '));
    var fields := Substr(sub, hi + 1, ti - (hi + 1));
    var time := Substr(sub, ti + 1, (|sub| - 1) - (ti + 1));
    RecordParts(title, tags, fields, time)
  }

  /** Both comma lists of the record can be converted. */
  predicate RecordParsable(sub: string)
  {
    Convertible(CutRecord(sub).tags) && Convertible(CutRecord(sub).fields)
  }

  /** An object whose members are the strings of a map. */
  function StringsObject(m: map<string, string>): JValue
  {
    JObject(map k | k in m :: JString(m[k]))
  }

  /** The object of one record: {title: tags + {"data": fields, "time": time}}. */
  function RecordItem(sub: string): JValue
    requires RecordParsable(sub)
  {
    var r := CutRecord(sub);
    JObject(map[r.title := Put(Put(StringsObject(DataToJson(r.tags)), "data", StringsObject(DataToJson(r.fields))), "time", JString(r.time))])
  }

  predicate RecordsParsable(records: seq<string>)
  {
    forall r :: r in records && r != "" ==> RecordParsable(r)
  }

  /** The objects of the non-empty records, in order. */
  function DataItems(records: seq<string>): seq<JValue>
    requires RecordsParsable(records)
  {
    if records == [] then []
    else
      var last := records[|records| - 1];
      DataItems(records[..|records| - 1]) + (if last == "" then [] else [RecordItem(last)])
  }

  const RecordDivider: string := "> "

  /** substr(find("> "), length() - 1): the output from its first record on. */
  function TestRest(out: string): string
    requires Contains(out, RecordDivider)
  {
    Substr(out, Find(out, RecordDivider, 0).value, |out| - 1)
  }

  /** The output has a record divider, and the records after it can be converted. */
  predicate OutputParsable(out: string)
  {
    Contains(out, RecordDivider) && RecordsParsable(Pieces(TestRest(out), RecordDivider))
  }

  /** The replies of getData: errorCode 4 "Invalid configurations", or the objects. */
  datatype DataReply = DataRejected | DataArray(items: seq<JValue>)

  /** The reply for the output of "telegraf -test". */
  function TestData(out: string): DataReply
    requires !Contains(out, TestErrorMarker) ==> OutputParsable(out)
  {
    if Contains(out, TestErrorMarker) then DataRejected
    else DataArray(DataItems(Pieces(TestRest(out), RecordDivider)))
  }

  /** The body of getData's loop for a non-empty record. */
  method ParseRecord(subStr: string) returns (item: JValue)
    requires RecordParsable(subStr)
    ensures item == RecordItem(subStr)
  {
    var r := CutRecord(subStr);
    var resultObj := ConvertDataToJson(r.tags);
    var dataObj := ConvertDataToJson(r.fields);
    var result := Put(Put(StringsObject(resultObj), "data", StringsObject(dataObj)), "time", JString(r.time));
    item := JObject(map[r.title := result]);
  }

  /** The body of getData's loop: a non-empty record is parsed and appended. */
  method AppendRecord(dataArray: seq<JValue>, ghost done: seq<string>, subStr: string) returns (dataArray': seq<JValue>)
    requires RecordsParsable(done) && dataArray == DataItems(done)
    requires subStr != "" ==> RecordParsable(subStr)
    ensures RecordsParsable(done + [subStr]) && dataArray' == DataItems(done + [subStr])
  {
    DataItemsSnoc(done, subStr);
    if |subStr| > 0 {
      var item := ParseRecord(subStr);
      dataArray' := dataArray + [item];
    } else {
      dataArray' := dataArray;
    }
  }

  lemma {:induction false} DataItemsSnoc(done: seq<string>, sub: string)
    requires RecordsParsable(done) && (sub != "" ==> RecordParsable(sub))
    ensures RecordsParsable(done + [sub])
    ensures DataItems(done + [sub]) == DataItems(done) + (if sub == "" then [] else [RecordItem(sub)])
  {
    assert (done + [sub])[..|done|] == done;
  }

  /** One turn of getData's loop: the record from prev to the next divider, appended. */
  method RecordsStep(rest: string, divider: string, prev: nat, ghost done: seq<string>, dataArray: seq<JValue>)
    returns (cur: nat, dataArray': seq<JValue>, ghost done': seq<string>)
    requires |divider| > 0 && RecordsParsable(Pieces(rest, divider)) && SplitSoFar(rest, divider, prev, done)
    requires RecordsParsable(done) && dataArray == DataItems(done)
    ensures prev <= cur <= |rest|
    ensures RecordsParsable(done') && dataArray' == DataItems(done')
    ensures cur == |rest| ==> done' == Pieces(rest, divider)
    ensures cur < |rest| ==> SplitSoFar(rest, divider, cur + |divider|, done')
  {
    CutBounds(rest, divider, prev);
    cur := Cut(rest, divider, prev);
    var subStr := rest[prev..cur];
    done' := done + [subStr];
    PiecesLoopStep(rest, divider, prev, done, cur, done');
    dataArray' := AppendRecord(dataArray, done, subStr);
  }

  /** The splitting loop of getData. */
  method SplitRecords(rest: string) returns (dataArray: seq<JValue>)
    requires RecordsParsable(Pieces(rest, RecordDivider))
    ensures dataArray == DataItems(Pieces(rest, RecordDivider))
  {
    dataArray := [];
    var prev := 0;
    ghost var done: seq<string> := [];
    assert rest[0..] == rest;
    while true
      invariant SplitSoFar(rest, RecordDivider, prev, done)
      invariant RecordsParsable(done) && dataArray == DataItems(done)
      decreases |rest| - prev
    {
      var cur;
      cur, dataArray, done := RecordsStep(rest, RecordDivider, prev, done, dataArray);
      if cur == |rest| {
        break;
      }
      prev := cur + |RecordDivider|;
    }
  }

  /** getData: run builds the command's output, standing for executeCommand. */
  method GetData(param: JValue, run: string -> string) returns (reply: DataReply)
    requires !Contains(run(DataCommand(param)), TestErrorMarker) ==> OutputParsable(run(DataCommand(param)))
    ensures reply == TestData(run(DataCommand(param)))
  {
    var tmpCmd := BuildDataCommand(param);
    var cmdResult := run(tmpCmd);
    reply := ParseOutput(cmdResult);
  }

  /** getData's handling of the output of "telegraf -test". */
  method ParseOutput(cmdResult: string) returns (reply: DataReply)
    requires !Contains(cmdResult, TestErrorMarker) ==> OutputParsable(cmdResult)
    ensures reply == TestData(cmdResult)
  {
    if Contains(cmdResult, TestErrorMarker) {
      return DataRejected;
    }
    var rest := Substr(cmdResult, Find(cmdResult, RecordDivider, 0).value, |cmdResult| - 1);
    var dataArray := SplitRecords(rest);
    return DataArray(dataArray);
  }

  lemma {:induction false} RFindCharIs(s: string, c: char, x: nat)
    requires x < |s| && s[x] == c && forall j :: x < j < |s| ==> s[j] != c
    ensures RFindChar(s, c) == Some(x)
    decreases |s|
  {
    if x < |s| - 1 {
      RFindCharIs(s[..|s| - 1], c, x);
    }
  }

  /** The header of a record: the title runs to its first ',' and the tags follow. */
  lemma {:induction false} HeaderCut(title: string, tags: string)
    requires ',' !in title
    ensures FindChar(title + "," + tags, ',', 0) == Some(|title|)
    ensures Substr(title + "," + tags, 0, |title|) == title
    ensures Substr(title + "," + tags, |title| + 1, |title + "," + tags| - 1) == tags
  {
    var header := title + "," + tags;
    forall j | 0 <= j < |title| ensures header[j] != ',' {
      assert header[j] == title[j];
    }
    FindCharIs(header, ',', 0, |title|);
    assert header[..|title|] == title;
    assert header[|title| + 1..] == tags;
  }

  /** A record "title,tags fields time" followed by one more character that is not a space
      is cut into its title, its tags, its fields and its time: the count
      (length() - 1) - (timeIndex + 1) drops that last character. */
  lemma {:induction false} RecordCutBeforeLast(title: string, tags: string, fields: string, time: string, last: char)
    requires ',' !in title && ' ' !in title && ' ' !in tags && ' ' !in fields && ' ' !in time && last != ' '
    ensures CutRecord(title + "," + tags + " " + fields + " " + time + [last]) == RecordParts(title, tags, fields, time)
  {
    var header := title + "," + tags;
    var sub := header + " " + fields + " " + time + [last];
    var hi := |header|;
    var ti := hi + 1 + |fields|;
    assert |sub| == ti + |time| + 2;
    forall j | 0 <= j < hi ensures sub[j] != ' ' {
      assert sub[j] == header[j];
      if j < |title| { assert header[j] == title[j]; } else if j > |title| { assert header[j] == tags[j - |title| - 1]; }
    }
    assert sub[hi] == ' ';
    FindCharIs(sub, ' ', 0, hi);
    assert sub[..hi] == header;
    HeaderCut(title, tags);
    forall j | ti < j < |sub| ensures sub[j] != ' ' {
      if j < ti + 1 + |time| { assert sub[j] == time[j - ti - 1]; }
    }
    assert sub[ti] == ' ';
    RFindCharIs(sub, ' ', ti);
    assert sub[hi + 1..ti] == fields;
    assert sub[ti + 1..ti + 1 + |time|] == time;
  }

  /** A record of line protocol, "title,tags fields time" and its newline, is cut into its
      title, its tags, its fields and its time, the newline dropped. */
  lemma {:induction false} RecordOfLine(title: string, tags: string, fields: string, time: string)
    requires ',' !in title && ' ' !in title && ' ' !in tags && ' ' !in fields && ' ' !in time
    ensures CutRecord(title + "," + tags + " " + fields + " " + time + "\n") == RecordParts(title, tags, fields, time)
  {
    assert "\n" == ['\n'];
    RecordCutBeforeLast(title, tags, fields, time, '\n');
  }

  /** The records getData receives: the base category's executeCommand removes every newline,
      so a record ends in its time, and the time loses its last character. */
  lemma {:induction false} RecordOfUnterminatedLine(title: string, tags: string, fields: string, time: string)
    requires ',' !in title && ' ' !in title && ' ' !in tags && ' ' !in fields && ' ' !in time && time != ""
    ensures CutRecord(title + "," + tags + " " + fields + " " + time) == RecordParts(title, tags, fields, time[..|time| - 1])
  {
    var t := time[..|time| - 1];
    assert time == t + [time[|time| - 1]];
    assert title + "," + tags + " " + fields + " " + time == title + "," + tags + " " + fields + " " + t + [time[|time| - 1]];
    RecordCutBeforeLast(title, tags, fields, t, time[|time| - 1]);
  }

  /** Every non-empty record gives one object with the record's title as its only member;
      empty records give none. */
  lemma {:induction false} DataItemsShape(records: seq<string>)
    requires RecordsParsable(records)
    ensures |DataItems(records)| <= |records|
    ensures (forall i :: 0 <= i < |records| ==> records[i] != "") ==> |DataItems(records)| == |records|
    ensures forall x :: x in DataItems(records) ==> x.JObject? && |x.fields| == 1
  {
    if records != [] {
      var front, last := records[..|records| - 1], records[|records| - 1];
      assert records == front + [last];
      assert RecordsParsable(front) by {
        assert forall r :: r in front ==> r in records;
      }
      DataItemsShape(front);
      DataItemsSnoc(front, last);
      if last != "" {
        RecordItemShape(last);
      }
    }
  }

  /** The object of a record has the record's title as its only member. */
  lemma {:induction false} RecordItemShape(sub: string)
    requires RecordParsable(sub)
    ensures RecordItem(sub).JObject? && |RecordItem(sub).fields| == 1
  {
    var r := CutRecord(sub);
    var inner := Put(Put(StringsObject(DataToJson(r.tags)), "data", StringsObject(DataToJson(r.fields))), "time", JString(r.time));
    assert RecordItem(sub) == JObject(map[r.title := inner]);
    SingletonMap(r.title, inner);
  }

  lemma {:induction false} SingletonMap<K, V>(k: K, v: V)
    ensures |map[k := v]| == 1
  {
    assert map[k := v].Keys == {k};
  }

  /** The text after the first "> " is kept whole, except when the output starts with it,
      where the length() - 1 count drops the last character; the first record is then
      empty, so the objects come from the records after it. */
  lemma {:induction false} TestRestCases(out: string)
    requires Contains(out, RecordDivider)
    ensures Find(out, RecordDivider, 0).value > 0 ==> TestRest(out) == out[Find(out, RecordDivider, 0).value..]
    ensures Find(out, RecordDivider, 0).value == 0 ==> TestRest(out) == out[..|out| - 1]
    ensures Find(out, RecordDivider, 0).value > 0 ==> Pieces(TestRest(out), RecordDivider)[0] == ""
  {
    var p := Find(out, RecordDivider, 0).value;
    if p > 0 {
      var rest := out[p..];
      assert rest[0..2] == out[p..p + 2];
      FindIs(rest, RecordDivider, 0, 0);
    }
  }
}
