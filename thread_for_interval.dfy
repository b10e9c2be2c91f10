/** The interval thread: once per second it looks at the collector's service status, keeps
    the collector's sampling interval, and every interval asks the web application manager and
    the application manager for the processes to sample; their replies become metric lines for
    the collector. Command outputs, the /proc probes, the sidecar document and the Luna replies
    are inputs of the model; the metric lines sent are a sequence the sampler appends to. */
module ThreadForInterval {
  import opened CppString
  import opened JsonValue

  const IntMin: int := -0x8000_0000
  const IntMax: int := 0x7fff_ffff

  // ---------------------------------------------------------------------------------------
  // stringToPositiveInt

  /** stringToPositiveInt(str): std::stoi in base 10, with its exceptions turned into codes:
      -1 when no number starts the text (invalid_argument), -2 when the number does not fit an
      int (out_of_range). The -3 of any other exception is never produced. A negative number
      in the text is returned as it is. */
  function StringToPositiveInt(str: string): (r: int)
    ensures IntMin <= r <= IntMax
    ensures LeadingInteger(str).None? ==> r == -1
    ensures r >= 0 ==> LeadingInteger(str) == Some(r)
    ensures LeadingInteger(str).Some? && !(IntMin <= LeadingInteger(str).value <= IntMax) ==> r == -2
    ensures LeadingInteger(str).Some? && IntMin <= LeadingInteger(str).value <= IntMax ==> r == LeadingInteger(str).value
  {
    match LeadingInteger(str)
    case None => -1
    case Some(v) => if IntMin <= v <= IntMax then v else -2
  }

  /** A decimal pid reads back as itself, and one too large for an int gives -2. */
  lemma {:induction false} StringToPositiveIntDecimal(n: nat)
    ensures n <= IntMax ==> StringToPositiveInt(Decimal(n)) == n
    ensures n > IntMax ==> StringToPositiveInt(Decimal(n)) == -2
  {
    AtoiDecimal(n, []);
    assert Decimal(n) + [] == Decimal(n);
  }

  /** Text that starts with no number gives -1. */
  lemma {:induction false} StringToPositiveIntInvalid()
    ensures StringToPositiveInt("") == -1 && StringToPositiveInt("abc") == -1 && StringToPositiveInt("-") == -1
  {
    assert SpacePrefixLength("abc") == 0 && "abc"[0..] == "abc";
    assert DigitPrefixLength("abc") == 0;
    assert SpacePrefixLength("-") == 0 && "-"[0..] == "-" && "-"[1..] == "";
  }

  // ---------------------------------------------------------------------------------------
  // needUpdateTelegrafAgentInterval

  /** Where the token after "; " starts: find(";") + 2, where a missing ';' (npos) wraps
      around to 1. */
  function LogTokenStart(log: string): nat
  {
    match FindChar(log, ';', 0)
    case None => 1
    case Some(i) => i + 2
  }

  /** substr(start, find(" ")): the token up to the next space, or the rest of the text. */
  function UpToSpace(s: string): string
  {
    match FindChar(s, ' ', 0)
    case None => s
    case Some(j) => s[..j]
  }

  /** needUpdateTelegrafAgentInterval(serviceLog), with configIntervalSecond as `interval`:
      always when no interval is known; otherwise when the collector's "since ...; <age> ago"
      age is a number of seconds. substr throws when the start lies beyond the text, so the
      caller must give a log where it does not. */
  function NeedUpdate(interval: int, log: string): bool
    requires interval <= 0 || LogTokenStart(log) <= |log|
  {
    interval <= 0 || 's' in UpToSpace(log[LogTokenStart(log)..])
  }

  /** With an interval known, the answer is whether the age token holds an 's'. */
  lemma {:induction false} NeedUpdateToken(interval: int, pre: string, token: string, post: string)
    requires interval > 0
    requires ';' !in pre && ' ' !in token
    ensures var log := pre + "; " + token + " " + post;
      LogTokenStart(log) <= |log| && (NeedUpdate(interval, log) <==> 's' in token)
  {
    var log := pre + "; " + token + " " + post;
    assert log[|pre|] == ';';
    assert forall j :: 0 <= j < |pre| ==> log[j] == pre[j];
    assert FindChar(log, ';', 0) == Some(|pre|);
    var rest := log[|pre| + 2..];
    assert rest == token + " " + post;
    assert rest[|token|] == ' ';
    assert forall j :: 0 <= j < |token| ==> rest[j] == token[j];
    assert FindChar(rest, ' ', 0) == Some(|token|);
    assert rest[..|token|] == token;
  }

  /** The age part of the service log: two seconds after the start an update is due, three
      minutes after it not; with no interval known, always. */
  lemma {:induction false} NeedUpdateExamples()
    ensures NeedUpdate(10, "PDT" + "; " + "2s" + " " + "ago")
    ensures !NeedUpdate(10, "PDT" + "; " + "3min" + " " + "ago")
    ensures NeedUpdate(0, "")
  {
    NeedUpdateToken(10, "PDT", "2s", "ago");
    NeedUpdateToken(10, "PDT", "3min", "ago");
    assert "2s"[1] == 's';
  }

  // ---------------------------------------------------------------------------------------
  // getTelegrafAgentInterval

  /** The text after the first "Interval:" up to the next ','. find(":") + 1 on a missing ':'
      would wrap around to 0; here the ':' of "Interval:" is always found. */
  function IntervalField(out: string): string
    requires Contains(out, "Interval:")
  {
    var a := out[Find(out, "Interval:", 0).value..];
    var b := match FindChar(a, ':', 0) case None => a case Some(k) => a[k + 1..];
    match FindChar(b, ',', 0) case None => b case Some(j) => b[..j]
  }

  /** The number before a unit letter, and the text after it; (0, d) when the letter is
      missing. */
  function UnitValue(d: string, unit: char): (int, string)
  {
    match FindChar(d, unit, 0)
    case None => (0, d)
    case Some(i) => (Atoi(d[..i]), d[i + 1..])
  }

  /** Hours, minutes and seconds, read in that order, each after the one before. */
  function UnitsSeconds(d: string): int
  {
    var (hours, d2) := UnitValue(d, 'h');
    var (minutes, d3) := UnitValue(d2, 'm');
    var seconds := UnitValue(d3, 's').0;
    hours * 3600 + minutes * 60 + seconds
  }

  /** The seconds of a duration field: an "ms" counts 1 and drops the text up to its 's';
      then the hours, minutes and seconds of what is left. */
  function DurationSeconds(d: string): int
  {
    if Contains(d, "ms") then 1 + UnitsSeconds(d[Find(d, "ms", 0).value + 1..])
    else UnitsSeconds(d)
  }

  /** getTelegrafAgentInterval(), with `out` the output of the status command filtered for
      "Interval:": -1 when the output is empty. substr throws when the output has no
      "Interval:", which the grep rules out. */
  function GetTelegrafAgentInterval(out: string): int
    requires out != "" ==> Contains(out, "Interval:")
  {
    if out == "" then -1 else DurationSeconds(IntervalField(out))
  }

  /** A run of digits holds no letter. */
  lemma {:induction false} DigitsLack(ds: string, c: char)
    requires AllDigits(ds) && !IsDigit(c)
    ensures c !in ds
  {
  }

  /** The number before a unit letter that follows a decimal rendering, and what comes after
      the letter. */
  lemma {:induction false} UnitValueAfter(n: nat, c: char, rest: string)
    requires !IsDigit(c)
    ensures UnitValue(Decimal(n) + [c] + rest, c) == (n, rest)
  {
    var ds := Decimal(n);
    var d := ds + [c] + rest;
    assert d[|ds|] == c;
    assert forall j :: 0 <= j < |ds| ==> d[j] == ds[j] && IsDigit(d[j]);
    FindCharIs(d, c, 0, |ds|);
    assert d[..|ds|] == ds && d[|ds| + 1..] == rest;
    AtoiDecimal(n, []);
    assert ds + [] == ds;
  }

  /** A missing unit letter counts 0 and leaves the text as it is. */
  lemma {:induction false} UnitValueMissing(d: string, c: char)
    requires c !in d
    ensures UnitValue(d, c) == (0, d)
  {
  }

  /** No "ms" in a text whose every 'm' is followed by a digit or ends it. */
  lemma {:induction false} NoMs(d: string)
    requires forall i :: 0 <= i < |d| - 1 && d[i] == 'm' ==> IsDigit(d[i + 1])
    ensures !Contains(d, "ms")
  {
    forall j | 0 <= j
      ensures !OccursAt(d, "ms", j)
    {
      if j + 2 <= |d| {
        assert d[j..j + 2] == [d[j], d[j + 1]];
      }
    }
  }

  /** Seconds, minutes and seconds, and hours, minutes and seconds, as the collector prints
      its interval ("10s", "1m30s", "2h0m0s"), after the fields before them. */
  lemma {:induction false} UnitsOfHms(h: nat, m: nat, s: nat)
    ensures UnitsSeconds(Decimal(s) + ['s']) == s
    ensures UnitsSeconds(Decimal(m) + ['m'] + (Decimal(s) + ['s'])) == 60 * m + s
    ensures UnitsSeconds(Decimal(h) + ['h'] + (Decimal(m) + ['m'] + (Decimal(s) + ['s']))) == 3600 * h + 60 * m + s
  {
    var sec := Decimal(s) + ['s'];
    var ms := Decimal(m) + ['m'] + sec;
    var hms := Decimal(h) + ['h'] + ms;
    DigitsLack(Decimal(s), 'h');
    DigitsLack(Decimal(s), 'm');
    DigitsLack(Decimal(m), 'h');
    assert 'h' !in sec && 'm' !in sec && 'h' !in ms;
    UnitValueAfter(s, 's', []);
    assert Decimal(s) + ['s'] + [] == sec;
    UnitValueMissing(sec, 'h');
    UnitValueMissing(sec, 'm');
    UnitValueMissing(ms, 'h');
    UnitValueAfter(m, 'm', sec);
    UnitValueAfter(h, 'h', ms);
  }

  /** The same fields have no "ms", so they are their hours, minutes and seconds. */
  lemma {:induction false} HmsHaveNoMs(h: nat, m: nat, s: nat)
    ensures !Contains(Decimal(s) + ['s'], "ms")
    ensures !Contains(Decimal(m) + ['m'] + (Decimal(s) + ['s']), "ms")
    ensures !Contains(Decimal(h) + ['h'] + (Decimal(m) + ['m'] + (Decimal(s) + ['s'])), "ms")
  {
    var ds, dm, dh := Decimal(s), Decimal(m), Decimal(h);
    var sec := ds + ['s'];
    var ms := dm + ['m'] + sec;
    var hms := dh + ['h'] + ms;
    assert forall i :: 0 <= i < |sec| ==> sec[i] != 'm' by {
      assert forall i :: 0 <= i < |ds| ==> sec[i] == ds[i] && IsDigit(sec[i]);
    }
    NoMs(sec);
    assert forall i :: 0 <= i < |ms| - 1 && ms[i] == 'm' ==> i == |dm| by {
      assert forall i :: 0 <= i < |dm| ==> ms[i] == dm[i] && IsDigit(ms[i]);
      assert forall i :: |dm| < i < |ms| ==> ms[i] == sec[i - |dm| - 1];
    }
    assert ms[|dm| + 1] == ds[0];
    NoMs(ms);
    assert forall i :: 0 <= i < |hms| - 1 && hms[i] == 'm' ==> i == |dh| + 1 + |dm| by {
      assert forall i :: 0 <= i < |dh| ==> hms[i] == dh[i] && IsDigit(hms[i]);
      assert hms[|dh|] == 'h';
      assert forall i :: |dh| < i < |hms| ==> hms[i] == ms[i - |dh| - 1];
    }
    assert hms[|dh| + 1 + |dm| + 1] == ds[0];
    NoMs(hms);
  }

  /** The field of a sub-second interval gives 1, whatever the milliseconds. */
  lemma {:induction false} DurationSecondsOfMs(n: nat)
    ensures DurationSeconds(Decimal(n) + "ms") == 1
  {
    var dn := Decimal(n);
    var d := dn + "ms";
    assert OccursAt(d, "ms", |dn|) by { assert d[|dn|..|dn| + 2] == "ms"; }
    forall j | 0 <= j < |dn|
      ensures !OccursAt(d, "ms", j)
    {
      assert d[j] == dn[j] && IsDigit(d[j]);
      if j + 2 <= |d| {
        assert d[j..j + 2][0] == d[j];
      }
    }
    FindIs(d, "ms", 0, |dn|);
    assert d[|dn| + 1..] == "s";
    UnitsOfLoneS();
  }

  /** A field of hours alone ("2h") is its hours in seconds: no minutes or seconds follow. */
  lemma {:induction false} DurationSecondsOfHours(h: nat)
    ensures DurationSeconds(Decimal(h) + ['h']) == 3600 * h
  {
    var dh := Decimal(h);
    var d := dh + ['h'];
    assert forall i :: 0 <= i < |d| ==> d[i] != 'm' by {
      assert forall i :: 0 <= i < |dh| ==> d[i] == dh[i] && IsDigit(d[i]);
    }
    NoMs(d);
    UnitValueAfter(h, 'h', []);
    assert dh + ['h'] + [] == d;
    UnitValueMissing([], 'm');
    UnitValueMissing([], 's');
  }

  lemma {:induction false} UnitsOfLoneS()
    ensures UnitsSeconds("s") == 0
  {
    UnitValueMissing("s", 'h');
    UnitValueMissing("s", 'm');
    FindCharIs("s", 's', 0, 0);
    assert "s"[..0] == "";
    assert LeadingInteger("") == None by {
      assert SpacePrefixLength("") == 0 && ""[0..] == "";
    }
  }

  /** The field is what stands between the first "Interval:" and the next ','. */
  lemma {:induction false} IntervalFieldOf(pre: string, field: string, post: string)
    requires forall j :: 0 <= j < |pre| ==> !OccursAt(pre + "Interval:" + field + "," + post, "Interval:", j)
    requires ',' !in field
    ensures Contains(pre + "Interval:" + field + "," + post, "Interval:")
    ensures IntervalField(pre + "Interval:" + field + "," + post) == field
    ensures GetTelegrafAgentInterval(pre + "Interval:" + field + "," + post) == DurationSeconds(field)
  {
    var out := pre + "Interval:" + field + "," + post;
    assert OccursAt(out, "Interval:", |pre|) by { assert out[|pre|..|pre| + 9] == "Interval:"; }
    FindIs(out, "Interval:", 0, |pre|);
    var a := out[|pre|..];
    assert a == "Interval:" + field + "," + post;
    assert a[8] == ':' && forall j :: 0 <= j < 8 ==> a[j] == "Interval"[j];
    FindCharIs(a, ':', 0, 8);
    var b := a[9..];
    assert b == field + "," + post;
    assert b[|field|] == ',' && forall j :: 0 <= j < |field| ==> b[j] == field[j];
    FindCharIs(b, ',', 0, |field|);
    assert b[..|field|] == field;
  }

  /** The interval the collector prints ("10s", "1m30s", "2h0m0s") is that number of seconds,
      and a sub-second one ("500ms") is 1. */
  lemma {:induction false} DurationSecondsOf(h: nat, m: nat, s: nat, n: nat)
    ensures var sec := Decimal(s) + ['s'];
      var ms := Decimal(m) + ['m'] + sec;
      && DurationSeconds(sec) == s
      && DurationSeconds(ms) == 60 * m + s
      && DurationSeconds(Decimal(h) + ['h'] + ms) == 3600 * h + 60 * m + s
      && DurationSeconds(Decimal(n) + "ms") == 1
      && ',' !in sec && ',' !in ms && ',' !in Decimal(h) + ['h'] + ms && ',' !in Decimal(n) + "ms"
  {
    UnitsOfHms(h, m, s);
    HmsHaveNoMs(h, m, s);
    DurationSecondsOfMs(n);
    DigitsLack(Decimal(s), ',');
    DigitsLack(Decimal(m), ',');
    DigitsLack(Decimal(h), ',');
    DigitsLack(Decimal(n), ',');
  }

  /** Empty output is -1, and a status line that starts with an interval of m minutes and
      s seconds reads as 60 * m + s. */
  lemma {:induction false} GetTelegrafAgentIntervalAtHead(m: nat, s: nat, post: string)
    ensures GetTelegrafAgentInterval("") == -1
    ensures GetTelegrafAgentInterval("Interval:" + (Decimal(m) + ['m'] + (Decimal(s) + ['s'])) + "," + post) == 60 * m + s
  {
    DurationSecondsOf(0, m, s, 0);
    var field := Decimal(m) + ['m'] + (Decimal(s) + ['s']);
    IntervalFieldOf([], field, post);
    HeadOfOutput(field, post);
  }

  lemma {:induction false} HeadOfOutput(field: string, post: string)
    ensures [] + "Interval:" + field + "," + post == "Interval:" + field + "," + post
  { }

  // ---------------------------------------------------------------------------------------
  // Sampling one process: interval_cpu_usage and calculateProcessMonitoring

  /** What the shell commands report about one pid: its user plus system CPU time, in clock
      ticks, and the five memory figures, as the commands print them. */
  datatype Probe = Probe(processTime: int, vsz: string, vmRss: string, smapsRss: string, smapsPss: string, smapsUss: string)

  /** The world outside the sampler: the /proc probes by pid text, the two-decimal rendering
      of (elapsed ticks, interval seconds) as a CPU usage, and the pid that the "ps -fC" lookup
      prints for a process name. */
  datatype Env = Env(probe: string -> Probe, usage: (int, int) -> string, psPid: string -> string)

  /** The sampler's state: the CPU time last seen per pid, and the lines sent to the
      collector so far. */
  datatype Store = Store(cache: map<int, int>, sent: seq<string>)

  /** The process to sample: its name for the metric and its pid text. */
  datatype Target = Target(name: string, pid: string)

  /** interval_cpu_usage, on the cache: the usage text and the new cache. A pid seen for the
      first time is stored and reads "0"; a pid seen before gives the usage of the ticks
      elapsed since, and its stored time is replaced. */
  function CpuUsage(cache: map<int, int>, key: int, time: int, interval: int, usage: (int, int) -> string): (string, map<int, int>)
  {
    if key !in cache then ("0", cache[key := time])
    else (usage(time - cache[key], interval), cache[key := time])
  }

  /** The cache only grows: every pid seen stays, with the time it had unless it is the pid
      sampled now, which holds the latest time; the first sighting alone reads "0" when the
      rendering never prints "0" for a pid seen before. */
  lemma {:induction false} CpuUsageCache(cache: map<int, int>, key: int, time: int, interval: int, usage: (int, int) -> string)
    ensures var (u, c) := CpuUsage(cache, key, time, interval, usage);
      && c.Keys == cache.Keys + {key}
      && c[key] == time
      && (forall k :: k in cache && k != key ==> c[k] == cache[k])
      && (key !in cache ==> u == "0")
      && (key in cache ==> u == usage(time - cache[key], interval))
  {
  }

  /** calculateProcessMonitoring's guard: the pid text is not empty and parses to a number
      that is not negative. */
  predicate Monitorable(pid: string)
  {
    pid != "" && StringToPositiveInt(pid) >= 0
  }

  /** The head of a process line, up to the CPU usage. */
  function MonitorHead(name: string, pid: string): string
  {
    "processMonitoring" + ",processName=" + name + ",pid=" + pid + " " + "interval_cpu_usage="
  }

  /** The memory figures that close a process line. */
  function MemoryFields(p: Probe): string
  {
    ",VSZ=" + p.vsz + ",vmRSS=" + p.vmRss + ",smaps_RSS=" + p.smapsRss + ",smaps_PSS=" + p.smapsPss + ",smaps_USS=" + p.smapsUss
  }

  /** calculateProcessMonitoring(name, pid) on the sampler's state: nothing happens for a pid
      that fails the guard; otherwise the pid's CPU time goes through the cache and one
      line is sent. */
  function Monitor(st: Store, interval: int, env: Env, t: Target): Store
  {
    if !Monitorable(t.pid) then st
    else
      var p := env.probe(t.pid);
      var (u, c) := CpuUsage(st.cache, StringToPositiveInt(t.pid), p.processTime, interval, env.usage);
      Store(c, st.sent + [MonitorHead(t.name, t.pid) + u + MemoryFields(p)])
  }

  /** Sampling a pid that fails the guard sends nothing and keeps the cache; sampling one that
      passes sends exactly one line, which starts with the process name and the pid, and
      stores the pid's latest CPU time under the number it parses to. */
  lemma {:induction false} MonitorOne(st: Store, interval: int, env: Env, t: Target)
    ensures var r := Monitor(st, interval, env, t);
      && (!Monitorable(t.pid) ==> r == st)
      && (Monitorable(t.pid) ==>
            && |r.sent| == |st.sent| + 1
            && r.sent[..|st.sent|] == st.sent
            && StartsWith(r.sent[|st.sent|], MonitorHead(t.name, t.pid))
            && r.cache.Keys == st.cache.Keys + {StringToPositiveInt(t.pid)}
            && r.cache[StringToPositiveInt(t.pid)] == env.probe(t.pid).processTime)
  {
    if Monitorable(t.pid) {
      var p := env.probe(t.pid);
      var (u, c) := CpuUsage(st.cache, StringToPositiveInt(t.pid), p.processTime, interval, env.usage);
      var line := MonitorHead(t.name, t.pid) + u + MemoryFields(p);
      var head := MonitorHead(t.name, t.pid);
      assert line == head + (u + MemoryFields(p));
      assert line[..|head|] == head;
      CpuUsageCache(st.cache, StringToPositiveInt(t.pid), p.processTime, interval, env.usage);
    }
  }

  /** A sequence of calculateProcessMonitoring calls, in order. */
  function MonitorAll(st: Store, interval: int, env: Env, ts: seq<Target>): Store
  {
    if ts == [] then st
    else Monitor(MonitorAll(st, interval, env, ts[..|ts| - 1]), interval, env, ts[|ts| - 1])
  }

  /** The number of targets that pass the guard. */
  function MonitorableCount(ts: seq<Target>): nat
  {
    if ts == [] then 0
    else MonitorableCount(ts[..|ts| - 1]) + (if Monitorable(ts[|ts| - 1].pid) then 1 else 0)
  }

  /** Sampling a sequence of targets sends one line per target that passes the guard, after
      the lines sent before, and forgets no pid. */
  lemma {:induction false} MonitorAllSends(st: Store, interval: int, env: Env, ts: seq<Target>)
    ensures var r := MonitorAll(st, interval, env, ts);
      && |r.sent| == |st.sent| + MonitorableCount(ts)
      && r.sent[..|st.sent|] == st.sent
      && st.cache.Keys <= r.cache.Keys
  {
    if ts != [] {
      var front := ts[..|ts| - 1];
      MonitorAllSends(st, interval, env, front);
      var mid := MonitorAll(st, interval, env, front);
      MonitorOne(mid, interval, env, ts[|ts| - 1]);
      var r := MonitorAll(st, interval, env, ts);
      assert r.sent[..|mid.sent|] == mid.sent;
      assert r.sent[..|st.sent|] == r.sent[..|mid.sent|][..|st.sent|];
    }
  }

  lemma {:induction false} MonitorSingle(st: Store, interval: int, env: Env, t: Target)
    ensures MonitorAll(st, interval, env, [t]) == Monitor(st, interval, env, t)
  {
    assert [t][..0] == [];
  }

  /** Sampling the targets of two sequences one after the other is sampling the joined
      sequence. */
  lemma {:induction false} MonitorAllAppend(st: Store, interval: int, env: Env, ts: seq<Target>, us: seq<Target>)
    ensures MonitorAll(st, interval, env, ts + us) == MonitorAll(MonitorAll(st, interval, env, ts), interval, env, us)
  {
    if us != [] {
      assert (ts + us)[..|ts + us| - 1] == ts + us[..|us| - 1];
      assert (ts + us)[|ts + us| - 1] == us[|us| - 1];
      MonitorAllAppend(st, interval, env, ts, us[..|us| - 1]);
    } else {
      assert ts + us == ts;
    }
  }

  // ---------------------------------------------------------------------------------------
  // cb_getWebProcessSize

  /** The web process's size with its unit dropped: erase(size() - 2). A size shorter than
      two characters makes erase throw. */
  predicate HasSizeUnit(wp: JValue)
  {
    |AsString(Get(wp, "webProcessSize"))| >= 2
  }

  function SizeWithoutUnit(wp: JValue): string
    requires HasSizeUnit(wp)
  {
    var size := AsString(Get(wp, "webProcessSize"));
    size[..|size| - 2]
  }

  /** The line sent for one running application of one web process. */
  function WebSizeLine(appId: string, pid: string, size: string): string
  {
    "webProcessSize,webId=" + appId + ",pid=" + pid + " webProcessSize=" + size
  }

  /** The lines for the running applications of one web process, in order. */
  function AppLines(apps: seq<JValue>, pid: string, size: string): (r: seq<string>)
    ensures |r| == |apps|
  {
    if apps == [] then []
    else AppLines(apps[..|apps| - 1], pid, size) + [WebSizeLine(AsString(Get(apps[|apps| - 1], "id")), pid, size)]
  }

  /** The lines for all web processes of the reply, in order. */
  function WebProcessSizeLines(wps: seq<JValue>): seq<string>
    requires forall i :: 0 <= i < |wps| ==> HasSizeUnit(wps[i])
  {
    if wps == [] then []
    else
      var wp := wps[|wps| - 1];
      WebProcessSizeLines(wps[..|wps| - 1]) + AppLines(Items(Get(wp, "runningApps")), AsString(Get(wp, "pid")), SizeWithoutUnit(wp))
  }

  /** The (web process, running application) pairs of the reply. */
  function PairCount(wps: seq<JValue>): nat
  {
    if wps == [] then 0 else PairCount(wps[..|wps| - 1]) + |Items(Get(wps[|wps| - 1], "runningApps"))|
  }

  /** One line per (web process, running application) pair. */
  lemma {:induction false} WebProcessSizeLinesCount(wps: seq<JValue>)
    requires forall i :: 0 <= i < |wps| ==> HasSizeUnit(wps[i])
    ensures |WebProcessSizeLines(wps)| == PairCount(wps)
  {
    if wps != [] {
      WebProcessSizeLinesCount(wps[..|wps| - 1]);
    }
  }

  /** Every line names a running application of a web process, with that process's pid and
      its size without the unit. */
  lemma {:induction false} WebProcessSizeLinesForm(wps: seq<JValue>, line: string)
    requires forall i :: 0 <= i < |wps| ==> HasSizeUnit(wps[i])
    requires line in WebProcessSizeLines(wps)
    ensures exists i, j ::
              && 0 <= i < |wps| && 0 <= j < |Items(Get(wps[i], "runningApps"))|
              && line == WebSizeLine(AsString(Get(Items(Get(wps[i], "runningApps"))[j], "id")), AsString(Get(wps[i], "pid")), SizeWithoutUnit(wps[i]))
  {
    var front := wps[..|wps| - 1];
    var wp := wps[|wps| - 1];
    var apps := Items(Get(wp, "runningApps"));
    if line in WebProcessSizeLines(front) {
      WebProcessSizeLinesForm(front, line);
      var i, j :| 0 <= i < |front| && 0 <= j < |Items(Get(front[i], "runningApps"))| &&
        line == WebSizeLine(AsString(Get(Items(Get(front[i], "runningApps"))[j], "id")), AsString(Get(front[i], "pid")), SizeWithoutUnit(front[i]));
      assert wps[i] == front[i];
    } else {
      var j := AppLineIndex(apps, AsString(Get(wp, "pid")), SizeWithoutUnit(wp), line);
      assert wps[|wps| - 1] == wp;
    }
  }

  /** Where a line of one web process comes from. */
  lemma {:induction false} AppLineIndex(apps: seq<JValue>, pid: string, size: string, line: string) returns (j: nat)
    requires line in AppLines(apps, pid, size)
    ensures j < |apps| && line == WebSizeLine(AsString(Get(apps[j], "id")), pid, size)
  {
    if line in AppLines(apps[..|apps| - 1], pid, size) {
      j := AppLineIndex(apps[..|apps| - 1], pid, size, line);
      assert apps[j] == apps[..|apps| - 1][j];
    } else {
      j := |apps| - 1;
    }
  }

  /** The inner loop of cb_getWebProcessSize: one line per running application. */
  method AppendAppLines(lines: seq<string>, apps: seq<JValue>, pid: string, size: string) returns (r: seq<string>)
    ensures r == lines + AppLines(apps, pid, size)
  {
    r := lines;
    var j := 0;
    while j < |apps|
      invariant 0 <= j <= |apps|
      invariant r == lines + AppLines(apps[..j], pid, size)
    {
      var processId := AsString(Get(apps[j], "id"));
      r := r + [WebSizeLine(processId, pid, size)];
      assert apps[..j + 1][..j] == apps[..j];
      j := j + 1;
    }
    assert apps[..j] == apps;
  }

  /** The two loops of cb_getWebProcessSize, collecting the lines they send. */
  method CollectWebProcessSizes(wps: seq<JValue>) returns (lines: seq<string>)
    requires forall i :: 0 <= i < |wps| ==> HasSizeUnit(wps[i])
    ensures lines == WebProcessSizeLines(wps)
  {
    lines := [];
    var i := 0;
    while i < |wps|
      invariant 0 <= i <= |wps|
      invariant lines == WebProcessSizeLines(wps[..i])
    {
      var pid := AsString(Get(wps[i], "pid"));
      var size := AsString(Get(wps[i], "webProcessSize"));
      size := size[..|size| - 2];
      lines := AppendAppLines(lines, Items(Get(wps[i], "runningApps")), pid, size);
      assert wps[..i + 1][..i] == wps[..i] && wps[..i + 1][i] == wps[i];
      i := i + 1;
    }
    assert wps[..i] == wps;
  }

  // ---------------------------------------------------------------------------------------
  // monitoringAllProcesses

  /** An entry of /proc: its name, and where its exe link points (None when readlink
      fails). */
  datatype ProcEntry = ProcEntry(dName: string, exe: Option<string>)

  /** readlink into the 256-byte buffer reads at most 255 bytes of the link. */
  const LinkBufferLength: nat := 255

  function LinkTarget(exe: string): (r: string)
    ensures |r| <= |exe| && |r| <= LinkBufferLength && r == exe[..|r|]
  {
    if |exe| <= LinkBufferLength then exe else exe[..LinkBufferLength]
  }

  /** The entries that are sampled: a numbered directory whose exe link reads as a text that
      is not empty. */
  predicate Sampled(e: ProcEntry)
  {
    AllDigits(e.dName) && e.exe.Some? && e.exe.value != ""
  }

  /** The id of the first running application whose webprocessid is the pid text. */
  function WebProcessName(running: seq<JValue>, pid: string): Option<string>
  {
    if running == [] then None
    else if AsString(Get(running[0], "webprocessid")) == pid then Some(AsString(Get(running[0], "id")))
    else WebProcessName(running[1..], pid)
  }

  /** The name an entry is sampled under: a WebAppMgr process takes the id of its running
      application, when one lists its pid; any other process keeps its exe path. */
  function ResolvedName(running: seq<JValue>, pid: string, exe: string): string
  {
    if Contains(exe, "WebAppMgr") then
      match WebProcessName(running, pid)
      case None => exe
      case Some(id) => id
    else exe
  }

  /** The first running application that lists the pid names a WebAppMgr process. */
  lemma {:induction false} ResolvedNameFirst(running: seq<JValue>, pid: string, exe: string, k: nat)
    requires Contains(exe, "WebAppMgr")
    requires k < |running| && AsString(Get(running[k], "webprocessid")) == pid
    requires forall j :: 0 <= j < k ==> AsString(Get(running[j], "webprocessid")) != pid
    ensures ResolvedName(running, pid, exe) == AsString(Get(running[k], "id"))
  {
    WebProcessNameFirst(running, pid, k);
  }

  lemma {:induction false} WebProcessNameFirst(running: seq<JValue>, pid: string, k: nat)
    requires k < |running| && AsString(Get(running[k], "webprocessid")) == pid
    requires forall j :: 0 <= j < k ==> AsString(Get(running[j], "webprocessid")) != pid
    ensures WebProcessName(running, pid) == Some(AsString(Get(running[k], "id")))
  {
    if k > 0 {
      assert AsString(Get(running[0], "webprocessid")) != pid;
      WebProcessNameFirst(running[1..], pid, k - 1);
    }
  }

  /** Any other process, and a WebAppMgr process that no running application lists, keeps
      the path its exe link reads. */
  lemma {:induction false} ResolvedNameKept(running: seq<JValue>, pid: string, exe: string)
    requires !Contains(exe, "WebAppMgr") || forall j :: 0 <= j < |running| ==> AsString(Get(running[j], "webprocessid")) != pid
    ensures ResolvedName(running, pid, exe) == exe
  {
    if Contains(exe, "WebAppMgr") {
      WebProcessNameNone(running, pid);
    }
  }

  lemma {:induction false} WebProcessNameNone(running: seq<JValue>, pid: string)
    requires forall j :: 0 <= j < |running| ==> AsString(Get(running[j], "webprocessid")) != pid
    ensures WebProcessName(running, pid) == None
  {
    if running != [] {
      assert AsString(Get(running[0], "webprocessid")) != pid;
      WebProcessNameNone(running[1..], pid);
    }
  }

  /** The target an entry is sampled as. */
  function EntryTarget(running: seq<JValue>, e: ProcEntry): Target
    requires e.exe.Some?
  {
    Target(ResolvedName(running, e.dName, LinkTarget(e.exe.value)), e.dName)
  }

  /** The targets of a /proc listing, in directory order. */
  function ProcTargets(running: seq<JValue>, entries: seq<ProcEntry>): seq<Target>
  {
    if entries == [] then []
    else
      var e := entries[|entries| - 1];
      ProcTargets(running, entries[..|entries| - 1]) + (if Sampled(e) then [EntryTarget(running, e)] else [])
  }

  /** A target comes from a sampled entry, and every sampled entry gives one. */
  lemma {:induction false} ProcTargetsMembers(running: seq<JValue>, entries: seq<ProcEntry>, t: Target)
    ensures t in ProcTargets(running, entries) <==> exists e :: e in entries && Sampled(e) && t == EntryTarget(running, e)
  {
    if entries != [] {
      var front := entries[..|entries| - 1];
      var e := entries[|entries| - 1];
      ProcTargetsMembers(running, front, t);
      assert entries == front + [e];
      if t in ProcTargets(running, entries) && t !in ProcTargets(running, front) {
        assert Sampled(e) && t == EntryTarget(running, e);
      }
    }
  }

  /** The inner loop of monitoringAllProcesses: the first running application that lists the
      pid lends its id. */
  method FindWebProcessName(running: seq<JValue>, pid: string, exe: string) returns (name: string)
    requires Contains(exe, "WebAppMgr")
    ensures name == ResolvedName(running, pid, exe)
  {
    name := exe;
    var i := 0;
    while i < |running|
      invariant 0 <= i <= |running|
      invariant forall j :: 0 <= j < i ==> AsString(Get(running[j], "webprocessid")) != pid
    {
      if AsString(Get(running[i], "webprocessid")) == pid {
        ResolvedNameFirst(running, pid, exe, i);
        return AsString(Get(running[i], "id"));
      }
      i := i + 1;
    }
    ResolvedNameKept(running, pid, exe);
  }

  // ---------------------------------------------------------------------------------------
  // cb_getRunningProcess

  /** The first requested name equal to an application id. */
  function NameIndex(names: seq<JValue>, id: string): (r: Option<nat>)
    ensures r.Some? ==> r.value < |names| && AsString(names[r.value]) == id
    ensures r.Some? ==> forall k :: 0 <= k < r.value ==> AsString(names[k]) != id
    ensures r.None? ==> forall k :: 0 <= k < |names| ==> AsString(names[k]) != id
  {
    if names == [] then None
    else if AsString(names[0]) == id then Some(0)
    else match NameIndex(names[1..], id)
      case None => None
      case Some(j) => Some(j + 1)
  }

  /** The running applications, in order, each taking the first requested name equal to its
      id out of the list: the targets they give and the names left. */
  function Consume(names: seq<JValue>, running: seq<JValue>): (seq<Target>, seq<JValue>)
  {
    if running == [] then ([], names)
    else
      var (ts, rest) := Consume(names, running[..|running| - 1]);
      var app := running[|running| - 1];
      var id := AsString(Get(app, "id"));
      match NameIndex(rest, id)
      case None => (ts, rest)
      case Some(j) => (ts + [Target(id, AsString(Get(app, "webprocessid")))], rest[..j] + rest[j + 1..])
  }

  /** The names of the targets. */
  function TargetNames(ts: seq<Target>): (r: seq<string>)
    ensures |r| == |ts|
  {
    if ts == [] then [] else TargetNames(ts[..|ts| - 1]) + [ts[|ts| - 1].name]
  }

  lemma {:induction false} NamesRemove(vs: seq<JValue>, j: nat)
    requires j < |vs|
    ensures multiset(AsStrings(vs)) == multiset(AsStrings(vs[..j] + vs[j + 1..])) + multiset{AsString(vs[j])}
  {
    var front, last := vs[..|vs| - 1], vs[|vs| - 1];
    if j < |vs| - 1 {
      NamesRemove(front, j);
      DropBeforeLast(vs, j);
      NamesRemoveFront(vs, j, front[..j] + front[j + 1..]);
    } else {
      assert vs[..j] + vs[j + 1..] == front;
      AsStringsLast(vs);
    }
  }

  /** The step of NamesRemove for an element before the last one. */
  lemma {:induction false} NamesRemoveFront(vs: seq<JValue>, j: nat, others: seq<JValue>)
    requires j < |vs| - 1
    requires vs[..j] + vs[j + 1..] == others + [vs[|vs| - 1]]
    requires multiset(AsStrings(vs[..|vs| - 1])) == multiset(AsStrings(others)) + multiset{AsString(vs[..|vs| - 1][j])}
    ensures multiset(AsStrings(vs)) == multiset(AsStrings(vs[..j] + vs[j + 1..])) + multiset{AsString(vs[j])}
  {
    var front, last := vs[..|vs| - 1], vs[|vs| - 1];
    assert front[j] == vs[j];
    calc {
      multiset(AsStrings(vs));
    == { AsStringsLast(vs); }
      multiset(AsStrings(front)) + multiset{AsString(last)};
    ==
      multiset(AsStrings(others)) + multiset{AsString(vs[j])} + multiset{AsString(last)};
    == { AsStringsSnoc(others, last); }
      multiset(AsStrings(others + [last])) + multiset{AsString(vs[j])};
    }
  }

  lemma {:induction false} AsStringsLast(vs: seq<JValue>)
    requires |vs| > 0
    ensures multiset(AsStrings(vs)) == multiset(AsStrings(vs[..|vs| - 1])) + multiset{AsString(vs[|vs| - 1])}
  {
  }

  /** Dropping an element other than the last commutes with taking the last one off. */
  lemma {:induction false} DropBeforeLast<T>(s: seq<T>, j: nat)
    requires j < |s| - 1
    ensures s[..j] + s[j + 1..] == (s[..|s| - 1][..j] + s[..|s| - 1][j + 1..]) + [s[|s| - 1]]
  {
    var l, r := s[..j] + s[j + 1..], (s[..|s| - 1][..j] + s[..|s| - 1][j + 1..]) + [s[|s| - 1]];
    assert |l| == |r|;
    forall k | 0 <= k < |l| ensures l[k] == r[k] {
      if k < j { assert l[k] == s[k]; } else { assert l[k] == s[k + 1]; }
    }
  }

  lemma {:induction false} AsStringsSnoc(vs: seq<JValue>, v: JValue)
    ensures multiset(AsStrings(vs + [v])) == multiset(AsStrings(vs)) + multiset{AsString(v)}
  {
    assert (vs + [v])[..|vs|] == vs;
    assert AsStrings(vs + [v]) == AsStrings(vs) + [AsString(v)];
  }

  /** Every requested name is taken by at most one running application: the names the
      targets carry and the names left are the requested names, no more and no fewer, and
      there are no more targets than running applications. */
  lemma {:induction false} ConsumeConserves(names: seq<JValue>, running: seq<JValue>)
    ensures var (ts, rest) := Consume(names, running);
      && multiset(TargetNames(ts)) + multiset(AsStrings(rest)) == multiset(AsStrings(names))
      && |ts| <= |running|
      && |ts| + |rest| == |names|
  {
    if running != [] {
      ConsumeConserves(names, running[..|running| - 1]);
      var (ts, rest) := Consume(names, running[..|running| - 1]);
      var id := AsString(Get(running[|running| - 1], "id"));
      match NameIndex(rest, id) {
        case None =>
        case Some(j) =>
          var t := Target(id, AsString(Get(running[|running| - 1], "webprocessid")));
          ConsumeTakes(names, running, ts, rest, id, j);
          TakenConserved(names, ts, rest, t, j);
      }
    }
  }

  /** The step of Consume where the last running application takes the name at j. */
  lemma {:induction false} ConsumeTakes(names: seq<JValue>, running: seq<JValue>, ts: seq<Target>, rest: seq<JValue>, id: string, j: nat)
    requires running != [] && (ts, rest) == Consume(names, running[..|running| - 1])
    requires id == AsString(Get(running[|running| - 1], "id")) && NameIndex(rest, id) == Some(j)
    ensures Consume(names, running)
      == (ts + [Target(id, AsString(Get(running[|running| - 1], "webprocessid")))], rest[..j] + rest[j + 1..])
  {
  }

  /** Moving the name at j from the names left to the targets keeps the whole. */
  lemma {:induction false} TakenConserved(names: seq<JValue>, ts: seq<Target>, rest: seq<JValue>, t: Target, j: nat)
    requires j < |rest| && AsString(rest[j]) == t.name
    requires multiset(TargetNames(ts)) + multiset(AsStrings(rest)) == multiset(AsStrings(names))
    ensures multiset(TargetNames(ts + [t])) + multiset(AsStrings(rest[..j] + rest[j + 1..])) == multiset(AsStrings(names))
  {
    NamesRemove(rest, j);
    TargetNamesSnoc(ts, t);
  }

  lemma {:induction false} TargetNamesSnoc(ts: seq<Target>, t: Target)
    ensures multiset(TargetNames(ts + [t])) == multiset(TargetNames(ts)) + multiset{t.name}
  {
    assert (ts + [t])[..|ts|] == ts;
  }

  /** Names no running application took are looked up with ps, in order. */
  function Leftovers(rest: seq<JValue>, env: Env): (r: seq<Target>)
    ensures |r| == |rest|
  {
    if rest == [] then []
    else
      var name := AsString(rest[|rest| - 1]);
      Leftovers(rest[..|rest| - 1], env) + [Target(name, env.psPid(name))]
  }

  /** The whole list is the one name ".". */
  predicate IsWildcard(names: seq<JValue>)
  {
    |names| == 1 && AsString(names[0]) == "."
  }

  /** The targets of a list of names: the running applications that took one, then the
      rest. */
  function RequestedTargets(names: seq<JValue>, running: seq<JValue>, env: Env): seq<Target>
  {
    Consume(names, running).0 + Leftovers(Consume(names, running).1, env)
  }

  /** The inner loop of cb_getRunningProcess. */
  method FirstNameIndex(names: seq<JValue>, id: string) returns (r: Option<nat>)
    ensures r == NameIndex(names, id)
  {
    var j := 0;
    while j < |names|
      invariant 0 <= j <= |names|
      invariant forall k :: 0 <= k < j ==> AsString(names[k]) != id
    {
      if AsString(names[j]) == id {
        return Some(j);
      }
      j := j + 1;
    }
    return None;
  }

  // ---------------------------------------------------------------------------------------
  // The countdown of intervalHandle_process

  /** One pass of the interval thread's loop: whether the stop message is waiting in the
      queue, the collector's "Active: active (running)" status line (empty when it is not
      active), the output of the "Interval:" query, and the sidecar document as
      readwebOSConfigJson returns it. */
  datatype Tick = Tick(stop: bool, statusLog: string, intervalOut: string, sidecar: JValue)

  /** intervalCountDown and configIntervalSecond. */
  datatype Countdown = Countdown(count: int, interval: int)

  /** The Luna calls a pass makes: getWebProcessSize, and running with the processMonitoring
      member of the sidecar as the context of its callback. */
  datatype Task = WebProcessSizeCall | RunningCall(processMonitoring: JValue)

  /** What a pass does: nothing, or the calls of an interval. */
  datatype Beat = Idle | Fired(tasks: seq<Task>)

  /** What the string handling of a pass demands: the service status line has the input
      that substr accepts, and an interval query that can be asked finds "Interval:". */
  predicate TickOk(interval: int, t: Tick)
  {
    t.statusLog != "" ==>
      && (interval <= 0 || LogTokenStart(t.statusLog) <= |t.statusLog|)
      && (NeedUpdate(interval, t.statusLog) && t.intervalOut != "" ==> Contains(t.intervalOut, "Interval:"))
  }

  /** A pass with an active collector that needs its interval re-read takes a new interval
      that differs from the current one, and starts the countdown again at 1. */
  function Retimed(c: Countdown, t: Tick): Countdown
    requires t.statusLog != "" && TickOk(c.interval, t)
  {
    if NeedUpdate(c.interval, t.statusLog) then
      var n := GetTelegrafAgentInterval(t.intervalOut);
      if n != -1 && c.interval != n then Countdown(1, n) else c
    else c
  }

  /** hasKey(key), hasKey("enabled") and asBool() of the sidecar's feature member. */
  predicate Enabled(sidecar: JValue, key: string)
  {
    HasKey(sidecar, key) && HasKey(Get(sidecar, key), "enabled") && AsBool(Get(Get(sidecar, key), "enabled"))
  }

  /** The calls of an interval, as the sidecar enables them. */
  function Tasks(sidecar: JValue): seq<Task>
  {
    (if Enabled(sidecar, "webOS.webProcessSize") then [WebProcessSizeCall] else [])
    + (if Enabled(sidecar, "webOS.processMonitoring") then [RunningCall(Get(sidecar, "webOS.processMonitoring"))] else [])
  }

  /** One pass after the stop check: an inactive collector changes nothing; otherwise the
      interval may be re-read, and the calls fire when the countdown is at 1 or below, after
      which the countdown restarts at the interval; else it counts down by one. */
  function Step(c: Countdown, t: Tick): (Countdown, Beat)
    requires TickOk(c.interval, t)
  {
    if t.statusLog == "" then (c, Idle)
    else
      var r := Retimed(c, t);
      if r.count <= 1 then (Countdown(r.interval, r.interval), Fired(Tasks(t.sidecar)))
      else (Countdown(r.count - 1, r.interval), Idle)
  }

  /** Every pass the thread makes before it stops is one whose string handling succeeds. */
  predicate RunOk(c: Countdown, ticks: seq<Tick>)
    decreases |ticks|
  {
    ticks == [] || ticks[0].stop || (TickOk(c.interval, ticks[0]) && RunOk(Step(c, ticks[0]).0, ticks[1..]))
  }

  /** The thread's loop over the passes: the stop message is looked at only at the top of a
      pass, and ends the loop. */
  function Run(c: Countdown, ticks: seq<Tick>): (Countdown, seq<Beat>)
    requires RunOk(c, ticks)
    decreases |ticks|
  {
    if ticks == [] || ticks[0].stop then (c, [])
    else
      var (c1, b) := Step(c, ticks[0]);
      var (c2, bs) := Run(c1, ticks[1..]);
      (c2, [b] + bs)
  }

  /** A pass that does not stop is one whose string handling succeeds. */
  lemma {:induction false} RunOkAt(c: Countdown, ticks: seq<Tick>, i: nat)
    requires i < |ticks| && !ticks[i].stop && RunOk(c, ticks[i..])
    ensures TickOk(c.interval, ticks[i])
  {
    assert ticks[i..][0] == ticks[i];
  }

  /** The passes from i on are pass i, then the passes from i + 1 on. */
  lemma {:induction false} RunAdvance(c: Countdown, ticks: seq<Tick>, i: nat, c': Countdown, beat: Beat,
                                      whole: (Countdown, seq<Beat>), beats: seq<Beat>)
    requires i < |ticks| && !ticks[i].stop && RunOk(c, ticks[i..]) && TickOk(c.interval, ticks[i])
    requires whole == (Run(c, ticks[i..]).0, beats + Run(c, ticks[i..]).1)
    requires (c', beat) == Step(c, ticks[i])
    ensures RunOk(c', ticks[i + 1..])
    ensures whole == (Run(c', ticks[i + 1..]).0, (beats + [beat]) + Run(c', ticks[i + 1..]).1)
  {
    assert ticks[i..][0] == ticks[i] && ticks[i..][1..] == ticks[i + 1..];
    var rest := Run(c', ticks[i + 1..]).1;
    assert beats + ([beat] + rest) == (beats + [beat]) + rest;
  }

  /** No pass is made at the end of the ticks or at a stop message. */
  lemma {:induction false} RunDone(c: Countdown, ticks: seq<Tick>, i: nat, whole: (Countdown, seq<Beat>), beats: seq<Beat>)
    requires i <= |ticks| && (i < |ticks| ==> ticks[i].stop) && RunOk(c, ticks[i..])
    requires whole == (Run(c, ticks[i..]).0, beats + Run(c, ticks[i..]).1)
    ensures whole == (c, beats)
  {
    assert beats + [] == beats;
  }

  /** A pass while the collector is not active changes nothing and calls nothing. */
  lemma {:induction false} StepInactive(c: Countdown, t: Tick)
    requires t.statusLog == ""
    ensures TickOk(c.interval, t) && Step(c, t) == (c, Idle)
  {
  }

  /** A re-read interval that differs from the current one restarts the countdown, so the
      calls fire at once and the countdown restarts at the new interval. */
  lemma {:induction false} StepRetimed(c: Countdown, t: Tick)
    requires t.statusLog != "" && TickOk(c.interval, t) && NeedUpdate(c.interval, t.statusLog)
    requires GetTelegrafAgentInterval(t.intervalOut) != -1 && GetTelegrafAgentInterval(t.intervalOut) != c.interval
    ensures var n := GetTelegrafAgentInterval(t.intervalOut);
      Step(c, t) == (Countdown(n, n), Fired(Tasks(t.sidecar)))
  {
  }

  /** The loop makes one pass for each tick before the first stop message, and no more. */
  lemma {:induction false} RunStops(c: Countdown, ticks: seq<Tick>, k: nat)
    requires RunOk(c, ticks)
    requires k <= |ticks| && (k < |ticks| ==> ticks[k].stop)
    requires forall j :: 0 <= j < k ==> !ticks[j].stop
    ensures |Run(c, ticks).1| == k
    decreases k
  {
    if k > 0 {
      assert !ticks[0].stop;
      RunStops(Step(c, ticks[0]).0, ticks[1..], k - 1);
    }
  }

  /** A pass with an active collector whose interval stays N. */
  predicate Steady(n: int, t: Tick)
  {
    && !t.stop && t.statusLog != "" && TickOk(n, t)
    && !(NeedUpdate(n, t.statusLog) && GetTelegrafAgentInterval(t.intervalOut) != -1 && GetTelegrafAgentInterval(t.intervalOut) != n)
  }

  lemma {:induction false} ModShift(x: int, n: int)
    requires n > 0
    ensures (x - n) % n == x % n
  {
    var q, r := x / n, x % n;
    assert x == q * n + r;
    assert x - n == (q - 1) * n + r by { assert (q - 1) * n == q * n - n; }
    ModUnique(x - n, n, q - 1, r);
  }

  lemma {:induction false} ModUnique(y: int, n: int, q: int, r: int)
    requires n > 0 && 0 <= r < n && y == q * n + r
    ensures y % n == r
  {
    var q2, r2 := y / n, y % n;
    assert y == q2 * n + r2;
    var d := q - q2;
    assert d * n == q * n - q2 * n;
    assert d * n == r2 - r;
    if d >= 1 { MultipleGrows(d, n); }
    if d <= -1 { assert (-d) * n == -(d * n); MultipleGrows(-d, n); }
  }

  lemma {:induction false} MultipleGrows(d: int, n: int)
    requires d >= 1 && n > 0
    ensures d * n >= n
  {
    assert d * n == (d - 1) * n + n;
    assert (d - 1) * n >= 0;
  }

  lemma {:induction false} ModOfNegative(x: int, n: int)
    requires n > 0 && -n < x < 0
    ensures x % n != 0
  {
    ModUnique(x, n, -1, x + n);
  }

  /** The beats of passes over ticks from a countdown at c with interval N: one per tick,
      firing at the pass i (from 0) for which i + 1 - c is a multiple of N, with the calls the
      sidecar of that pass enables. */
  predicate EveryNth(c: int, n: int, ticks: seq<Tick>, bs: seq<Beat>)
    requires n >= 1
  {
    && |bs| == |ticks|
    && (forall i :: 0 <= i < |ticks| ==> (bs[i].Fired? <==> (i + 1 - c) % n == 0))
    && (forall i :: 0 <= i < |ticks| && bs[i].Fired? ==> bs[i].tasks == Tasks(ticks[i].sidecar))
  }

  /** With a steady interval N of at least 1, the calls fire once every N passes. */
  lemma {:induction false} Periodic(c: int, n: int, ticks: seq<Tick>)
    requires n >= 1 && 1 <= c <= n
    requires forall i :: 0 <= i < |ticks| ==> Steady(n, ticks[i])
    ensures RunOk(Countdown(c, n), ticks)
    ensures Run(Countdown(c, n), ticks).0.interval == n
    ensures EveryNth(c, n, ticks, Run(Countdown(c, n), ticks).1)
    decreases |ticks|
  {
    if ticks != [] {
      var t := ticks[0];
      SteadyStep(c, n, t);
      var c1 := if c <= 1 then n else c - 1;
      SteadyRest(n, ticks);
      Periodic(c1, n, ticks[1..]);
      RunCons(Countdown(c, n), ticks);
      EveryNthCons(c, n, ticks, Step(Countdown(c, n), t).1, Run(Countdown(c1, n), ticks[1..]).1);
    }
  }

  /** A steady pass fires when the countdown is at 1 and otherwise counts down. */
  lemma {:induction false} SteadyStep(c: int, n: int, t: Tick)
    requires n >= 1 && 1 <= c <= n && Steady(n, t)
    ensures TickOk(n, t)
    ensures Step(Countdown(c, n), t)
      == (Countdown(if c <= 1 then n else c - 1, n), if c <= 1 then Fired(Tasks(t.sidecar)) else Idle)
  {
    assert Retimed(Countdown(c, n), t) == Countdown(c, n);
  }

  lemma {:induction false} SteadyRest(n: int, ticks: seq<Tick>)
    requires ticks != [] && forall i :: 0 <= i < |ticks| ==> Steady(n, ticks[i])
    ensures forall i :: 0 <= i < |ticks[1..]| ==> Steady(n, ticks[1..][i])
  {
    forall i | 0 <= i < |ticks[1..]| ensures Steady(n, ticks[1..][i]) {
      assert ticks[1..][i] == ticks[i + 1];
    }
  }

  /** A pass that does not stop puts its beat in front of the beats of the rest. */
  lemma {:induction false} RunCons(c: Countdown, ticks: seq<Tick>)
    requires ticks != [] && !ticks[0].stop && TickOk(c.interval, ticks[0])
    requires RunOk(Step(c, ticks[0]).0, ticks[1..])
    ensures RunOk(c, ticks)
    ensures Run(c, ticks).0 == Run(Step(c, ticks[0]).0, ticks[1..]).0
    ensures Run(c, ticks).1 == [Step(c, ticks[0]).1] + Run(Step(c, ticks[0]).0, ticks[1..]).1
  {
  }

  lemma {:induction false} EveryNthCons(c: int, n: int, ticks: seq<Tick>, b: Beat, bs1: seq<Beat>)
    requires n >= 1 && 1 <= c <= n && ticks != []
    requires b == if c <= 1 then Fired(Tasks(ticks[0].sidecar)) else Idle
    requires EveryNth(if c <= 1 then n else c - 1, n, ticks[1..], bs1)
    ensures EveryNth(c, n, ticks, [b] + bs1)
  {
    var bs := [b] + bs1;
    PhaseFirst(c, n);
    forall i | 0 <= i < |ticks|
      ensures bs[i].Fired? <==> (i + 1 - c) % n == 0
      ensures bs[i].Fired? ==> bs[i].tasks == Tasks(ticks[i].sidecar)
    {
      if i >= 1 {
        assert bs[i] == bs1[i - 1] && ticks[1..][i - 1] == ticks[i];
        PhaseStep(i, c, n);
      }
    }
  }

  /** The first pass fires exactly when the countdown is at 1. */
  lemma {:induction false} PhaseFirst(c: int, n: int)
    requires n >= 1 && 1 <= c <= n
    ensures (0 + 1 - c) % n == 0 <==> c <= 1
  {
    if c > 1 {
      ModOfNegative(1 - c, n);
    }
  }

  /** Pass i from count c is pass i - 1 from the count after the first pass. */
  lemma {:induction false} PhaseStep(i: int, c: int, n: int)
    requires n >= 1 && 1 <= c <= n && i >= 1
    ensures var c1 := if c <= 1 then n else c - 1;
      ((i - 1) + 1 - c1) % n == 0 <==> (i + 1 - c) % n == 0
  {
    if c <= 1 {
      ModShift(i, n);
    }
  }

  // ---------------------------------------------------------------------------------------
  // The sampler's globals

  /** configIntervalSecond, old_process_time_map and the lines handed to sendToTelegraf. */
  class Sampler {
    var configIntervalSecond: int
    var oldProcessTime: map<int, int>
    var sent: seq<string>

    /** The globals as the program starts: interval 0, nothing cached or sent. */
    constructor()
      ensures configIntervalSecond == 0 && oldProcessTime == map[] && sent == []
    {
      configIntervalSecond := 0;
      oldProcessTime := map[];
      sent := [];
    }

    function State(): Store
      reads this
    {
      Store(oldProcessTime, sent)
    }

    /** interval_cpu_usage(pid): the cache is keyed by the number the pid text parses to. */
    method IntervalCpuUsage(pid: string, env: Env) returns (usage: string)
      modifies this
      ensures configIntervalSecond == old(configIntervalSecond) && sent == old(sent)
      ensures (usage, oldProcessTime) == CpuUsage(old(oldProcessTime), StringToPositiveInt(pid), env.probe(pid).processTime, configIntervalSecond, env.usage)
    {
      var processTime := env.probe(pid).processTime;
      var intPid := StringToPositiveInt(pid);
      if intPid !in oldProcessTime {
        oldProcessTime := oldProcessTime[intPid := processTime];
        return "0";
      }
      var previous := oldProcessTime[intPid];
      oldProcessTime := oldProcessTime[intPid := processTime];
      usage := env.usage(processTime - previous, configIntervalSecond);
    }

    /** calculateProcessMonitoring(processName, pid). */
    method CalculateProcessMonitoring(processName: string, pid: string, env: Env)
      modifies this
      ensures configIntervalSecond == old(configIntervalSecond)
      ensures State() == Monitor(old(State()), configIntervalSecond, env, Target(processName, pid))
    {
      if pid == "" || StringToPositiveInt(pid) < 0 {
        return;
      }
      var sendData := MonitorHead(processName, pid);
      var u := IntervalCpuUsage(pid, env);
      sendData := sendData + u + MemoryFields(env.probe(pid));
      sent := sent + [sendData];
    }

    /** cb_getWebProcessSize(response): false and nothing sent when returnValue is not true;
        otherwise one line per running application of every web process. */
    method CbGetWebProcessSize(response: JValue) returns (ok: bool)
      requires AsBool(Get(response, "returnValue")) ==>
        forall i :: 0 <= i < |Items(Get(response, "WebProcesses"))| ==> HasSizeUnit(Items(Get(response, "WebProcesses"))[i])
      modifies this
      ensures configIntervalSecond == old(configIntervalSecond) && oldProcessTime == old(oldProcessTime)
      ensures ok == AsBool(Get(response, "returnValue"))
      ensures !ok ==> sent == old(sent)
      ensures ok ==> sent == old(sent) + WebProcessSizeLines(Items(Get(response, "WebProcesses")))
    {
      if !AsBool(Get(response, "returnValue")) {
        return false;
      }
      var lines := CollectWebProcessSizes(Items(Get(response, "WebProcesses")));
      sent := sent + lines;
      return true;
    }
  
    /** monitoringAllProcesses(runningWebProcesses), over the entries of /proc. */
    method MonitoringAllProcesses(running: seq<JValue>, entries: seq<ProcEntry>, env: Env)
      modifies this
      ensures configIntervalSecond == old(configIntervalSecond)
      ensures State() == MonitorAll(old(State()), configIntervalSecond, env, ProcTargets(running, entries))
    {
      var i := 0;
      while i < |entries|
        invariant 0 <= i <= |entries|
        invariant configIntervalSecond == old(configIntervalSecond)
        invariant State() == MonitorAll(old(State()), configIntervalSecond, env, ProcTargets(running, entries[..i]))
      {
        var e := entries[i];
        assert entries[..i + 1][..i] == entries[..i] && entries[..i + 1][i] == e;
        if AllDigits(e.dName) && e.exe.Some? && e.exe.value != "" {
          var targetProcessName := LinkTarget(e.exe.value);
          if Contains(targetProcessName, "WebAppMgr") {
            targetProcessName := FindWebProcessName(running, e.dName, targetProcessName);
          }
          assert targetProcessName == EntryTarget(running, e).name;
          ghost var ts := ProcTargets(running, entries[..i]);
          assert ProcTargets(running, entries[..i + 1]) == ts + [EntryTarget(running, e)];
          assert (ts + [EntryTarget(running, e)])[..|ts|] == ts;
          CalculateProcessMonitoring(targetProcessName, e.dName, env);
          assert MonitorAll(old(State()), configIntervalSecond, env, ts + [EntryTarget(running, e)])
              == Monitor(MonitorAll(old(State()), configIntervalSecond, env, ts), configIntervalSecond, env, EntryTarget(running, e));
        } else {
          assert ProcTargets(running, entries[..i + 1]) == ProcTargets(running, entries[..i]) + [];
          assert ProcTargets(running, entries[..i]) + [] == ProcTargets(running, entries[..i]);
        }
        i := i + 1;
      }
      assert entries[..i] == entries;
    }

    /** cb_getRunningProcess(response, user_data), with user_data the processMonitoring
        member of the sidecar document and entries the listing of /proc. */
    method CbGetRunningProcess(response: JValue, userData: JValue, entries: seq<ProcEntry>, env: Env) returns (ok: bool)
      modifies this
      ensures configIntervalSecond == old(configIntervalSecond)
      ensures ok == (AsBool(Get(response, "returnValue")) && Get(userData, "process_name").JArray?)
      ensures !ok ==> State() == old(State())
      ensures ok && IsWildcard(Items(Get(userData, "process_name"))) ==>
        State() == MonitorAll(old(State()), configIntervalSecond, env, ProcTargets(Items(Get(response, "running")), entries))
      ensures ok && !IsWildcard(Items(Get(userData, "process_name"))) ==>
        State() == MonitorAll(old(State()), configIntervalSecond, env,
                              RequestedTargets(Items(Get(userData, "process_name")), Items(Get(response, "running")), env))
    {
      if !AsBool(Get(response, "returnValue")) {
        return false;
      }
      var processName := Get(userData, "process_name");
      if !processName.JArray? {
        return false;
      }
      var running := Items(Get(response, "running"));
      if |processName.items| == 1 && AsString(processName.items[0]) == "." {
        MonitoringAllProcesses(running, entries, env);
        return true;
      }
      ghost var st0 := State();
      var rest := MonitorMatched(processName.items, running, env);
      MonitorLeftovers(rest, env);
      MonitorAllAppend(st0, configIntervalSecond, env, Consume(processName.items, running).0, Leftovers(rest, env));
      return true;
    }

    /** The first loop of cb_getRunningProcess: each running application takes the first
        requested name equal to its id out of the list and is sampled under it. */
    method MonitorMatched(names0: seq<JValue>, running: seq<JValue>, env: Env) returns (names: seq<JValue>)
      modifies this
      ensures configIntervalSecond == old(configIntervalSecond)
      ensures names == Consume(names0, running).1
      ensures State() == MonitorAll(old(State()), configIntervalSecond, env, Consume(names0, running).0)
    {
      names := names0;
      var i := 0;
      while i < |running|
        invariant 0 <= i <= |running|
        invariant configIntervalSecond == old(configIntervalSecond)
        invariant names == Consume(names0, running[..i]).1
        invariant State() == MonitorAll(old(State()), configIntervalSecond, env, Consume(names0, running[..i]).0)
      {
        var webProcessName := AsString(Get(running[i], "id"));
        assert running[..i + 1][..i] == running[..i] && running[..i + 1][i] == running[i];
        var j := FirstNameIndex(names, webProcessName);
        if j.Some? {
          var pid := AsString(Get(running[i], "webprocessid"));
          names := names[..j.value] + names[j.value + 1..];
          ghost var ts := Consume(names0, running[..i]).0;
          assert Consume(names0, running[..i + 1]).0 == ts + [Target(webProcessName, pid)];
          assert (ts + [Target(webProcessName, pid)])[..|ts|] == ts;
          CalculateProcessMonitoring(webProcessName, pid, env);
        }
        i := i + 1;
      }
      assert running[..i] == running;
    }

    /** The second loop of cb_getRunningProcess: the names left are sampled under the pid
        that ps prints for them. */
    method MonitorLeftovers(names: seq<JValue>, env: Env)
      modifies this
      ensures configIntervalSecond == old(configIntervalSecond)
      ensures State() == MonitorAll(old(State()), configIntervalSecond, env, Leftovers(names, env))
    {
      var k := 0;
      while k < |names|
        invariant 0 <= k <= |names|
        invariant configIntervalSecond == old(configIntervalSecond)
        invariant State() == MonitorAll(old(State()), configIntervalSecond, env, Leftovers(names[..k], env))
      {
        var processNameStr := AsString(names[k]);
        var pid := env.psPid(processNameStr);
        assert names[..k + 1][..k] == names[..k] && names[..k + 1][k] == names[k];
        ghost var ts := Leftovers(names[..k], env);
        assert Leftovers(names[..k + 1], env) == ts + [Target(processNameStr, pid)];
        assert (ts + [Target(processNameStr, pid)])[..|ts|] == ts;
        CalculateProcessMonitoring(processNameStr, pid, env);
        k := k + 1;
      }
      assert names[..k] == names;
    }
  
    /** One pass of intervalHandle_process after the stop check: the countdown it leaves,
        with configIntervalSecond, and what it called. */
    method Pass(intervalCountDown: int, t: Tick) returns (countDown: int, beat: Beat)
      requires TickOk(configIntervalSecond, t)
      modifies this
      ensures oldProcessTime == old(oldProcessTime) && sent == old(sent)
      ensures (Countdown(countDown, configIntervalSecond), beat) == Step(Countdown(intervalCountDown, old(configIntervalSecond)), t)
    {
      countDown := intervalCountDown;
      beat := Idle;
      if t.statusLog != "" {
        if NeedUpdate(configIntervalSecond, t.statusLog) {
          var newIntervalInSecond := GetTelegrafAgentInterval(t.intervalOut);
          if newIntervalInSecond != -1 && configIntervalSecond != newIntervalInSecond {
            configIntervalSecond := newIntervalInSecond;
            countDown := 1;
          }
        }
        if countDown <= 1 {
          countDown := configIntervalSecond;
          beat := Fired(Tasks(t.sidecar));
        } else {
          countDown := countDown - 1;
        }
      }
    }

    /** intervalHandle_process over the passes of its loop, starting from
        intervalCountDown = 1: the interval it leaves and what each pass called. */
    method IntervalProcess(ticks: seq<Tick>) returns (beats: seq<Beat>)
      requires RunOk(Countdown(1, configIntervalSecond), ticks)
      modifies this
      ensures oldProcessTime == old(oldProcessTime) && sent == old(sent)
      ensures (Countdown(Run(Countdown(1, old(configIntervalSecond)), ticks).0.count, configIntervalSecond), beats)
              == Run(Countdown(1, old(configIntervalSecond)), ticks)
    {
      var intervalCountDown := 1;
      beats := [];
      var i := 0;
      ghost var whole := Run(Countdown(1, configIntervalSecond), ticks);
      assert [] + whole.1 == whole.1;
      while i < |ticks|
        invariant 0 <= i <= |ticks|
        invariant oldProcessTime == old(oldProcessTime) && sent == old(sent)
        invariant RunOk(Countdown(intervalCountDown, configIntervalSecond), ticks[i..])
        invariant whole == (Run(Countdown(intervalCountDown, configIntervalSecond), ticks[i..]).0,
                            beats + Run(Countdown(intervalCountDown, configIntervalSecond), ticks[i..]).1)
      {
        var t := ticks[i];
        if t.stop {
          break;
        }
        ghost var c := Countdown(intervalCountDown, configIntervalSecond);
        RunOkAt(c, ticks, i);
        var beat;
        intervalCountDown, beat := Pass(intervalCountDown, t);
        RunAdvance(c, ticks, i, Countdown(intervalCountDown, configIntervalSecond), beat, whole, beats);
        beats := beats + [beat];
        i := i + 1;
      }
      RunDone(Countdown(intervalCountDown, configIntervalSecond), ticks, i, whole, beats);
    }
  }
}
