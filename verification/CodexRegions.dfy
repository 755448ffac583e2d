// The marker-region scanner of the Codex hook installer, over the facts of each
// source line.
module CodexRegions {
  import opened Common
  import opened CodexLines

  // A managed array-of-tables group: its byte range, whether the range starts
  // with a newline the installer added, and which group of its event it is.
  datatype Region = Region(event: string, start: nat, end: nat, prefixNewline: bool, groupIndex: nat)

  // NoCommand: the command to install is empty. Unparseable: the decoder refuses the
  // text. Invalid: the generated text does not hold up. Unmodelled: the text uses inline
  // arrays or the historical singleton tables, which the installer handles on separate
  // paths.
  datatype Refusal = NoCommand | Unparseable | Conflict | Unmodelled | Invalid

  type Scan = Result<seq<Region>, Refusal>

  predicate IsHook(h: Option<Header>) {
    && h.Some? && h.value.isArray && |h.value.path| == 2
    && h.value.path[0] == "hooks" && h.value.path[1] in MANAGED_EVENTS
  }

  predicate IsHandlers(h: Header, event: string) {
    h.isArray && h.path == ["hooks", event, "hooks"]
  }

  predicate IsLegacy(h: Option<Header>) {
    && h.Some? && !h.value.isArray && |h.value.path| == 2
    && h.value.path[0] == "hooks" && h.value.path[1] in LEGACY_EVENTS
  }

  // Whether some line of a [hooks] table assigns a managed inline array.
  predicate AnyInline(fs: seq<Fact>, inHooks: bool) {
    if fs == [] then false
    else if fs[0].header.Some? then
      AnyInline(fs[1..], !fs[0].header.value.isArray && fs[0].header.value.path == ["hooks"])
    else (inHooks && fs[0].inlineArray) || AnyInline(fs[1..], inHooks)
  }

  // Where a group whose header has been read ends: after its last code line,
  // before the next marker or foreign header.
  function AotEnd(fs: seq<Fact>, i: nat, event: string, end: nat): nat
    requires i <= |fs|
    decreases |fs| - i
  {
    if i == |fs| || fs[i].marker then end
    else if fs[i].header.Some? then
      if IsHandlers(fs[i].header.value, event) then AotEnd(fs, i + 1, event, fs[i].full) else end
    else AotEnd(fs, i + 1, event, if fs[i].code then fs[i].full else end)
  }

  // How many groups of the event start before line i.
  function GroupsBefore(fs: seq<Fact>, i: nat, event: string): nat
    requires i <= |fs|
  {
    if i == 0 then 0
    else
      GroupsBefore(fs, i - 1, event) +
      (if IsHook(fs[i - 1].header) && fs[i - 1].header.value.path[1] == event then 1 else 0)
  }

  function ManagedStart(text: string, markerAt: nat, prefix: bool): Option<nat> {
    if !prefix then Some(markerAt)
    else if markerAt == 0 || markerAt > |text| || text[markerAt - 1] != '\n' then None
    else Some(markerAt - 1)
  }

  // The region a marker on line i owns.
  function OwnedRegion(text: string, fs: seq<Fact>, i: nat): Result<Region, Refusal>
    requires i < |fs|
  {
    var markerAt := fs[i].start + fs[i].column;
    if i + 1 >= |fs| then Err(Conflict)
    else if fs[i + 1].prefix.None? then Err(if IsLegacy(fs[i + 1].header) then Unmodelled else Conflict)
    else
      var prefix := fs[i + 1].prefix.value;
      var start := ManagedStart(text, markerAt, prefix);
      if start.None? || i + 2 >= |fs| || !IsHook(fs[i + 2].header) then Err(Conflict)
      else
        var event := fs[i + 2].header.value.path[1];
        Ok(Region(event, start.value, AotEnd(fs, i + 3, event, fs[i + 2].full), prefix, GroupsBefore(fs, i + 2, event)))
  }

  function Collect(text: string, fs: seq<Fact>, i: nat): Scan
    requires i <= |fs|
    decreases |fs| - i
  {
    if i == |fs| then Ok([])
    else if !fs[i].marker then Collect(text, fs, i + 1)
    else
      var r := OwnedRegion(text, fs, i);
      if r.Err? then Err(r.error)
      else
        var rest := Collect(text, fs, i + 1);
        if rest.Err? then rest else Ok([r.value] + rest.value)
  }

  // Metadata is in its place: right after a marker, and well formed.
  predicate MetaOwned(fs: seq<Fact>, i: nat)
    requires i < |fs|
  {
    fs[i].meta ==> i > 0 && fs[i - 1].marker && fs[i].prefix.Some?
  }

  // Later regions start at or after the end of the ones before, and no event
  // has two.
  predicate RegionsOk(text: string, rs: seq<Region>) {
    && (forall i :: 0 <= i < |rs| ==> rs[i].start < rs[i].end <= |text|)
    && (forall i :: 0 < i < |rs| ==> rs[i - 1].end <= rs[i].start)
    && (forall i, j :: 0 <= i < j < |rs| ==> rs[i].event != rs[j].event)
  }

  function ScanRegions(text: string, fs: seq<Fact>): Scan {
    if AnyInline(fs, false) then Err(Unmodelled)
    else
      var found := Collect(text, fs, 0);
      if found.Err? then found
      else if exists i :: 0 <= i < |fs| && fs[i].trailing then
        Err(if exists i :: 0 <= i < |fs| && fs[i].trailing && IsLegacy(fs[i].header) then Unmodelled else Conflict)
      else if exists i :: 0 <= i < |fs| && !MetaOwned(fs, i) then Err(Conflict)
      else if !RegionsOk(text, found.value) then Err(Conflict)
      else found
  }
}
