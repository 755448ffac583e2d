// The analysis of a Codex config: the decoded hook groups, the managed regions
// and the commands they hold.
module CodexConfig {
  import opened Common
  import opened Json
  import opened CodexLines
  import opened CodexRegions
  import opened CodexFacts
  import opened CodexScanProofs
  import opened CodexRewrite

  // The TOML decoder: the top table, or nothing for text it refuses.
  type Decoder = string -> Option<Table>

  // ----- Decoded groups ------------------------------------------------------

  predicate AllTables(items: seq<Json>) {
    forall i :: 0 <= i < |items| ==> items[i].Object?
  }

  function Tables(items: seq<Json>): (ts: seq<Table>)
    requires AllTables(items)
    ensures |ts| == |items| && forall i :: 0 <= i < |items| ==> ts[i] == items[i].fields
  {
    seq(|items|, i requires 0 <= i < |items| => items[i].fields)
  }

  // mapSlice: an array of tables.
  function MapSlice(v: Json): Option<seq<Table>> {
    if v.Array? && AllTables(v.items) then Some(Tables(v.items)) else None
  }

  function StringField(t: Table, key: string): Option<string> {
    if key in t && t[key].String? then Some(t[key].s) else None
  }

  // handlerWindowsCommand: either spelling, but not both, and not empty.
  datatype Windows = Absent | Malformed | Present(command: string)

  function WindowsCommand(handler: Table): Windows {
    var camel, snake := "commandWindows" in handler, "command_windows" in handler;
    if camel && snake then Malformed
    else if !camel && !snake then Absent
    else
      var raw := StringField(handler, if snake then "command_windows" else "commandWindows");
      if raw.None? || raw.value == "" then Malformed else Present(raw.value)
  }

  const HANDLER_KEYS := {"type", "command", "commandWindows", "command_windows"}

  // canonicalGroupCommands: the commands of a group of the exact shape the
  // installer writes.
  function CanonicalCommands(group: Table): Option<(string, string)> {
    if |group| != 2 || StringField(group, "matcher") != Some("") || "hooks" !in group then None
    else
      var handlers := MapSlice(group["hooks"]);
      if handlers.None? || |handlers.value| != 1 then None
      else
        var h := handlers.value[0];
        var windows := WindowsCommand(h);
        var command := StringField(h, "command");
        if (|h| != 2 && |h| != 3) || !(h.Keys <= HANDLER_KEYS) || windows.Malformed? then None
        else if StringField(h, "type") != Some("command") || command.None? then None
        else Some((command.value, if windows.Present? then windows.command else ""))
  }

  // ----- The hooks table -----------------------------------------------------

  function HooksTable(d: Table): Option<Table> {
    if "hooks" !in d then Some(map[])
    else if d["hooks"].Object? then Some(d["hooks"].fields) else None
  }

  // Each group of the event is mapped to its array-of-tables header.
  predicate EventMapped(hooks: Table, fs: seq<Fact>, event: string) {
    event in hooks ==>
      var groups := MapSlice(hooks[event]);
      groups.Some? && |groups.value| == GroupsIn(fs, event) && |groups.value| > 0
  }

  function GroupsOf(hooks: Table, event: string): seq<Table> {
    if event in hooks && MapSlice(hooks[event]).Some? then MapSlice(hooks[event]).value else []
  }

  // The commands of one region's group.
  function OwnedGroup(hooks: Table, r: Region): Result<Owned, Refusal> {
    var groups := GroupsOf(hooks, r.event);
    if r.groupIndex >= |groups| then Err(Conflict)
    else
      var c := CanonicalCommands(groups[r.groupIndex]);
      if c.None? then Err(Conflict) else Ok(Owned(r, c.value.0, c.value.1))
  }

  function OwnedGroups(hooks: Table, rs: seq<Region>): Result<seq<Owned>, Refusal> {
    if rs == [] then Ok([])
    else
      var o := OwnedGroup(hooks, rs[0]);
      if o.Err? then Err(o.error)
      else
        var rest := OwnedGroups(hooks, rs[1..]);
        if rest.Err? then rest else Ok([o.value] + rest.value)
  }

  // The managed group of an event, if there is one.
  function ManagedIndex(os: seq<Owned>, event: string): Option<nat> {
    if os == [] then None
    else if os[0].region.event == event then Some(os[0].region.groupIndex)
    else ManagedIndex(os[1..], event)
  }

  // A handler whose Windows fields are malformed, or one outside the managed
  // group that runs a command to be installed.
  predicate HandlerClashes(h: Table, unmarked: bool, command: string, windows: string) {
    var w := WindowsCommand(h);
    || w.Malformed?
    || (&& StringField(h, "type") == Some("command") && unmarked
        && (|| (if StringField(h, "command").Some? then StringField(h, "command").value else "") == command
            || (windows != "" && w == Present(windows))))
  }

  function Handlers(group: Table): seq<Table> {
    if "hooks" in group && MapSlice(group["hooks"]).Some? then MapSlice(group["hooks"]).value else []
  }

  predicate GroupClashes(group: Table, unmarked: bool, command: string, windows: string) {
    exists k :: 0 <= k < |Handlers(group)| && HandlerClashes(Handlers(group)[k], unmarked, command, windows)
  }

  predicate EventClashes(hooks: Table, os: seq<Owned>, event: string, command: string, windows: string) {
    exists g :: 0 <= g < |GroupsOf(hooks, event)| &&
                GroupClashes(GroupsOf(hooks, event)[g], ManagedIndex(os, event) != Some(g), command, windows)
  }

  predicate Clashes(hooks: Table, os: seq<Owned>, command: string, windows: string) {
    exists event :: event in MANAGED_EVENTS && EventClashes(hooks, os, event, command, windows)
  }

  // analyzeConfig on the parts of a config: its scanned regions with the
  // commands they hold. `check` is whether clashing handlers are looked for.
  function Analyze(decode: Decoder, text: string, command: string, windows: string, check: bool)
    : Result<seq<Owned>, Refusal>
  {
    var d := decode(text);
    var fs := TextFacts(text, 0);
    if d.None? then Err(Unparseable)
    else if AnyInline(fs, false) then Err(Unmodelled)
    else
      var hooks := HooksTable(d.value);
      if hooks.None? || exists event :: event in MANAGED_EVENTS && !EventMapped(hooks.value, fs, event) then Err(Conflict)
      else
        var rs := ScanRegions(text, fs);
        if rs.Err? then Err(rs.error)
        else
          var os := OwnedGroups(hooks.value, rs.value);
          if os.Ok? && check && Clashes(hooks.value, os.value, command, windows) then Err(Conflict) else os
  }
}
