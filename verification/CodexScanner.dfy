// The passes over a config: its syntax, its managed regions, its groups and
// handlers.
module CodexScanner {
  import opened Common
  import opened Json
  import opened TomlMask
  import opened CodexLines
  import opened CodexRegions
  import opened CodexFacts
  import opened CodexRewrite
  import opened CodexConfig

  // scanSyntax: the facts of every line.
  method ScanSyntax(text: string) returns (fs: seq<Fact>)
    ensures fs == TextFacts(text, 0)
  {
    hide Lines, Lex, FactOf, Slice;
    var lines := SplitSourceLines(text);
    var outside := OutsideStringMask(text);
    var mask := outside[..];
    fs := [];
    for i := 0 to |lines|
      invariant fs == Facts(lines, mask, 0)[..i]
    {
      fs := fs + [FactOf(lines[i], Slice(mask, lines[i], 0))];
    }
    assert fs == Facts(lines, mask, 0);
  }

  // Whether a [hooks] table assigns a managed inline array.
  method FindInline(fs: seq<Fact>) returns (found: bool)
    ensures found == AnyInline(fs, false)
  {
    var inHooks, i := false, 0;
    assert fs[0..] == fs;
    while i < |fs|
      invariant i <= |fs| && AnyInline(fs[i..], inHooks) == AnyInline(fs, false)
    {
      var f := fs[i];
      assert fs[i..][1..] == fs[i + 1..];
      if f.header.Some? {
        inHooks := !f.header.value.isArray && f.header.value.path == ["hooks"];
      } else if inHooks && f.inlineArray {
        return true;
      }
      i := i + 1;
    }
    return false;
  }

  // aotRegionEnd
  method AotRegionEnd(fs: seq<Fact>, headerLine: nat, event: string) returns (end: nat)
    requires headerLine < |fs|
    ensures end == AotEnd(fs, headerLine + 1, event, fs[headerLine].full)
  {
    end := fs[headerLine].full;
    var i := headerLine + 1;
    while i < |fs|
      invariant i <= |fs| && AotEnd(fs, i, event, end) == AotEnd(fs, headerLine + 1, event, fs[headerLine].full)
    {
      var f := fs[i];
      if f.marker { return; }
      if f.header.Some? {
        if !IsHandlers(f.header.value, event) { return; }
        end := f.full;
      } else if f.code {
        end := f.full;
      }
      i := i + 1;
    }
  }

  // aotIndexAtLine: how many groups of the event come before a line.
  method GroupIndex(fs: seq<Fact>, line: nat, event: string) returns (n: nat)
    requires line <= |fs|
    ensures n == GroupsBefore(fs, line, event)
  {
    n := 0;
    for i := 0 to line
      invariant n == GroupsBefore(fs, i, event)
    {
      if IsHook(fs[i].header) && fs[i].header.value.path[1] == event { n := n + 1; }
    }
  }

  // One marker line of scanManagedRegions.
  method ReadMarker(text: string, fs: seq<Fact>, i: nat) returns (r: Result<Region, Refusal>)
    requires i < |fs|
    ensures r == OwnedRegion(text, fs, i)
  {
    var markerAt := fs[i].start + fs[i].column;
    if i + 1 >= |fs| { return Err(Conflict); }
    if fs[i + 1].prefix.None? {
      return Err(if IsLegacy(fs[i + 1].header) then Unmodelled else Conflict);
    }
    var start := ManagedStart(text, markerAt, fs[i + 1].prefix.value);
    if start.None? || i + 2 >= |fs| || !IsHook(fs[i + 2].header) { return Err(Conflict); }
    var event := fs[i + 2].header.value.path[1];
    var index := GroupIndex(fs, i + 2, event);
    var end := AotRegionEnd(fs, i + 2, event);
    return Ok(Region(event, start.value, end, fs[i + 1].prefix.value, index));
  }

  function Prepended(found: seq<Region>, rest: Scan): Scan {
    if rest.Err? then rest else Ok(found + rest.value)
  }

  // The marker pass of scanManagedRegions.
  method CollectRegions(text: string, fs: seq<Fact>) returns (r: Scan)
    ensures r == Collect(text, fs, 0)
  {
    var found: seq<Region> := [];
    assert Collect(text, fs, 0).Ok? ==> found + Collect(text, fs, 0).value == Collect(text, fs, 0).value;
    var i := 0;
    while i < |fs|
      invariant i <= |fs| && Prepended(found, Collect(text, fs, i)) == Collect(text, fs, 0)
    {
      if fs[i].marker {
        var next := ReadMarker(text, fs, i);
        if next.Err? { return Err(next.error); }
        if Collect(text, fs, i + 1).Ok? {
          assert found + ([next.value] + Collect(text, fs, i + 1).value) ==
                 (found + [next.value]) + Collect(text, fs, i + 1).value;
        }
        found := found + [next.value];
      }
      i := i + 1;
    }
    assert found + [] == found;
    return Ok(found);
  }

  // The bounds pass of scanManagedRegions. Regions come in line order, which is
  // the order of their starts.
  method CheckBounds(text: string, rs: seq<Region>) returns (ok: bool)
    ensures ok == RegionsOk(text, rs)
  {
    var seen: set<string> := {};
    for i := 0 to |rs|
      invariant forall k :: 0 <= k < i ==> rs[k].start < rs[k].end <= |text|
      invariant forall k :: 0 < k < i ==> rs[k - 1].end <= rs[k].start
      invariant forall j, k :: 0 <= j < k < i ==> rs[j].event != rs[k].event
      invariant forall e :: e in seen <==> exists j :: 0 <= j < i && rs[j].event == e
    {
      var r := rs[i];
      if r.end <= r.start || r.end > |text| || (i > 0 && r.start < rs[i - 1].end) || r.event in seen {
        return false;
      }
      seen := seen + {r.event};
    }
    return true;
  }

  // scanManagedRegions
  method ScanManagedRegions(text: string, fs: seq<Fact>) returns (r: Scan)
    ensures r == ScanRegions(text, fs)
  {
    var isInline := FindInline(fs);
    if isInline { return Err(Unmodelled); }
    r := CollectRegions(text, fs);
    if r.Err? { return; }
    var trailing, legacy := false, false;
    for i := 0 to |fs|
      invariant trailing == exists k :: 0 <= k < i && fs[k].trailing
      invariant legacy == exists k :: 0 <= k < i && fs[k].trailing && IsLegacy(fs[k].header)
    {
      if fs[i].trailing {
        trailing := true;
        if IsLegacy(fs[i].header) { legacy := true; }
      }
    }
    if trailing { return Err(if legacy then Unmodelled else Conflict); }
    for i := 0 to |fs|
      invariant forall k :: 0 <= k < i ==> MetaOwned(fs, k)
    {
      if fs[i].meta && !(i > 0 && fs[i - 1].marker && fs[i].prefix.Some?) {
        assert !MetaOwned(fs, i);
        return Err(Conflict);
      }
    }
    var ok := CheckBounds(text, r.value);
    if !ok { return Err(Conflict); }
  }

  // The commands of the managed groups.
  method ReadOwned(hooks: Table, rs: seq<Region>) returns (r: Result<seq<Owned>, Refusal>)
    ensures r == OwnedGroups(hooks, rs)
  {
    hide OwnedGroups, OwnedGroup;
    var os: seq<Owned> := [];
    var i := 0;
    assert rs[0..] == rs;
    NothingBefore(OwnedGroups(hooks, rs));
    while i < |rs|
      invariant i <= |rs| && Behind(os, OwnedGroups(hooks, rs[i..])) == OwnedGroups(hooks, rs)
    {
      assert rs[i..][1..] == rs[i + 1..] && rs[i..][0] == rs[i];
      OwnedStep(hooks, rs[i..]);
      var next := OwnedGroup(hooks, rs[i]);
      if next.Err? { return Err(next.error); }
      OneBehind(os, next.value, OwnedGroups(hooks, rs[i + 1..]));
      os, i := os + [next.value], i + 1;
    }
    NoneOwned(hooks, rs[i..]);
    assert os + [] == os;
    return Ok(os);
  }

  // The rest of a reading, behind what is already read.
  function Behind(os: seq<Owned>, rest: Result<seq<Owned>, Refusal>): Result<seq<Owned>, Refusal> {
    if rest.Err? then rest else Ok(os + rest.value)
  }

  lemma NothingBefore(r: Result<seq<Owned>, Refusal>)
    ensures Behind([], r) == r
  {
    if r.Ok? { assert [] + r.value == r.value; }
  }

  lemma OneBehind(os: seq<Owned>, o: Owned, rest: Result<seq<Owned>, Refusal>)
    ensures Behind(os, Behind([o], rest)) == Behind(os + [o], rest)
  {
    if rest.Ok? { assert os + ([o] + rest.value) == (os + [o]) + rest.value; }
  }

  lemma OwnedStep(hooks: Table, rs: seq<Region>)
    requires rs != []
    ensures OwnedGroups(hooks, rs) ==
            var o := OwnedGroup(hooks, rs[0]);
            if o.Err? then Err(o.error) else Behind([o.value], OwnedGroups(hooks, rs[1..]))
  {
    hide OwnedGroup;
  }

  lemma NoneOwned(hooks: Table, rs: seq<Region>)
    requires rs == []
    ensures OwnedGroups(hooks, rs) == Ok([])
  {
  }

  // The collision pass of analyzeConfig over one event's groups.
  method FindClash(groups: seq<Table>, managed: Option<nat>, command: string, windows: string) returns (found: bool)
    ensures found == exists g :: 0 <= g < |groups| && GroupClashes(groups[g], managed != Some(g), command, windows)
  {
    for g := 0 to |groups|
      invariant forall k :: 0 <= k < g ==> !GroupClashes(groups[k], managed != Some(k), command, windows)
    {
      var handlers := Handlers(groups[g]);
      for k := 0 to |handlers|
        invariant forall j :: 0 <= j < k ==> !HandlerClashes(handlers[j], managed != Some(g), command, windows)
      {
        if HandlerClashes(handlers[k], managed != Some(g), command, windows) {
          assert GroupClashes(groups[g], managed != Some(g), command, windows);
          return true;
        }
      }
    }
    return false;
  }

  // analyzeConfig
  method AnalyzeConfig(decode: Decoder, text: string, command: string, windows: string, check: bool)
    returns (r: Result<seq<Owned>, Refusal>)
    ensures r == Analyze(decode, text, command, windows, check)
  {
    hide TextFacts, EventMapped, GroupClashes, ScanRegions, OwnedGroups, AnyInline, GroupsOf, ManagedIndex;
    var decoded := decode(text);
    if decoded.None? { return Err(Unparseable); }
    var fs := ScanSyntax(text);
    var isInline := FindInline(fs);
    if isInline { return Err(Unmodelled); }
    var hooks := HooksTable(decoded.value);
    if hooks.None? { return Err(Conflict); }
    for i := 0 to |MANAGED_EVENTS|
      invariant forall k :: 0 <= k < i ==> EventMapped(hooks.value, fs, MANAGED_EVENTS[k])
    {
      if !EventMapped(hooks.value, fs, MANAGED_EVENTS[i]) { return Err(Conflict); }
    }
    assert forall e :: e in MANAGED_EVENTS ==> EventMapped(hooks.value, fs, e);
    hide MANAGED_EVENTS;
    var scan := ScanManagedRegions(text, fs);
    if scan.Err? { return Err(scan.error); }
    r := ReadOwned(hooks.value, scan.value);
    if r.Err? || !check { return; }
    for i := 0 to |MANAGED_EVENTS|
      invariant forall k :: 0 <= k < i ==> !EventClashes(hooks.value, r.value, MANAGED_EVENTS[k], command, windows)
    {
      var event := MANAGED_EVENTS[i];
      var found := FindClash(GroupsOf(hooks.value, event), ManagedIndex(r.value, event), command, windows);
      if found {
        assert EventClashes(hooks.value, r.value, event, command, windows);
        return Err(Conflict);
      }
    }
  }
}
