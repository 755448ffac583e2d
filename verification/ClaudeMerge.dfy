// The merges the Claude hook installer performs on a decoded settings object:
// what each accepts, what each produces, and what one undoes of another.
module ClaudeMerge {
  import opened Common
  import opened Json

  const MARKER := "x_handoffgraph_managed"

  // The events the installer owns, sorted; and the historical set without
  // SessionEnd.
  const HOOK_EVENTS: seq<string> := [
    "PostCompact", "PostToolUse", "PreCompact", "PreToolUse",
    "SessionEnd", "SessionStart", "Stop", "UserPromptSubmit"]

  const LEGACY_EVENTS: seq<string> := [
    "PostCompact", "PostToolUse", "PreCompact", "PreToolUse",
    "SessionStart", "Stop", "UserPromptSubmit"]

  // A command handler. `args` is None for Go's nil slice (shell form).
  datatype HookSpec = HookSpec(kind: string, command: string, args: Option<seq<string>>)

  function ShellSpec(command: string): HookSpec {
    HookSpec("command", command, None)
  }

  // ----- Handlers and groups -------------------------------------------------

  function Strings(ss: seq<string>): (r: seq<Json>)
    ensures |r| == |ss| && forall i :: 0 <= i < |ss| ==> r[i] == String(ss[i])
  {
    seq(|ss|, i requires 0 <= i < |ss| => String(ss[i]))
  }

  function HandlerObject(spec: HookSpec): Json {
    var h: Table := map["type" := String(spec.kind), "command" := String(spec.command)];
    Object(if spec.args.Some? then h["args" := Array(Strings(spec.args.value))] else h)
  }

  function ManagedGroup(spec: HookSpec): Json {
    Object(map["matcher" := String(""), "hooks" := Array([HandlerObject(spec)])])
  }

  predicate Has(obj: Table, k: string, v: Json) {
    k in obj && obj[k] == v
  }

  predicate SameExecutionIdentity(handler: Table, spec: HookSpec) {
    && Has(handler, "type", String(spec.kind))
    && Has(handler, "command", String(spec.command))
    && match spec.args
       case None => "args" !in handler || Has(handler, "args", Array([]))
       case Some(args) => Has(handler, "args", Array(Strings(args)))
  }

  // The command of the exact handler the historical installer wrote.
  function ExactLegacyHandler(handler: Table): (r: Option<string>) {
    if && handler.Keys == {"type", "command", MARKER}
       && handler[MARKER] == Bool(true) && handler["type"] == String("command")
       && handler["command"].String? && handler["command"].s != ""
    then Some(handler["command"].s)
    else None
  }

  // The two fields of a group that carries nothing but one handler list.
  predicate PlainGroup(group: Table) {
    group.Keys == {"matcher", "hooks"} && group["matcher"] == String("")
  }

  // The historical command of a group holding exactly one historical handler.
  function CandidateCommand(g: Json): (r: Option<string>) {
    if && g.Object? && PlainGroup(g.fields) && g.fields["hooks"].Array?
       && |g.fields["hooks"].items| == 1 && g.fields["hooks"].items[0].Object?
    then ExactLegacyHandler(g.fields["hooks"].items[0].fields)
    else None
  }

  // ----- Reading one event ---------------------------------------------------

  // A handler the scan accepts: any object, except that the ownership key may
  // only occur on the exact historical handler, alone in a plain group.
  predicate HandlerOk(group: Table, count: nat, h: Json) {
    && h.Object?
    && (MARKER in h.fields ==>
          ExactLegacyHandler(h.fields).Some? && PlainGroup(group) && count == 1)
  }

  predicate GroupOk(g: Json) {
    && g.Object?
    && ("hooks" in g.fields ==>
          && g.fields["hooks"].Array?
          && forall i :: 0 <= i < |g.fields["hooks"].items| ==>
               HandlerOk(g.fields, |g.fields["hooks"].items|, g.fields["hooks"].items[i]))
  }

  predicate EntriesOk(entries: Json) {
    entries.Array? && forall i :: 0 <= i < |entries.items| ==> GroupOk(entries.items[i])
  }

  function HandlerHit(h: Json, spec: HookSpec): nat {
    if h.Object? && MARKER !in h.fields && SameExecutionIdentity(h.fields, spec) then 1 else 0
  }

  function HandlerHits(hs: seq<Json>, spec: HookSpec): nat {
    if hs == [] then 0 else HandlerHits(hs[..|hs| - 1], spec) + HandlerHit(hs[|hs| - 1], spec)
  }

  // Handlers of a group that would run the same command as `spec`.
  function GroupHits(g: Json, spec: HookSpec): nat {
    if g.Object? && "hooks" in g.fields && g.fields["hooks"].Array?
    then HandlerHits(g.fields["hooks"].items, spec)
    else 0
  }

  function Hits(gs: seq<Json>, spec: HookSpec): nat {
    if gs == [] then 0 else Hits(gs[..|gs| - 1], spec) + GroupHits(gs[|gs| - 1], spec)
  }

  function ExactCount(gs: seq<Json>, spec: HookSpec): nat {
    if gs == [] then 0
    else ExactCount(gs[..|gs| - 1], spec) + (if gs[|gs| - 1] == ManagedGroup(spec) then 1 else 0)
  }

  function Candidates(gs: seq<Json>): seq<string> {
    if gs == [] then []
    else
      var c := CandidateCommand(gs[|gs| - 1]);
      Candidates(gs[..|gs| - 1]) + (if c.Some? then [c.value] else [])
  }

  // ----- Reading the whole hooks table ---------------------------------------

  function EventCandidates(hooks: Table, event: string): seq<string> {
    if event in hooks && hooks[event].Array? then Candidates(hooks[event].items) else []
  }

  function CandidateTotal(hooks: Table, events: seq<string>): nat {
    if events == [] then 0
    else CandidateTotal(hooks, events[..|events| - 1]) + |EventCandidates(hooks, events[|events| - 1])|
  }

  // Exactly one historical group with this command in each of the events, and
  // no historical group elsewhere.
  predicate IsMarkerSet(hooks: Table, events: seq<string>, command: string) {
    && CandidateTotal(hooks, HOOK_EVENTS) == |events|
    && forall i :: 0 <= i < |events| ==> EventCandidates(hooks, events[i]) == [command]
  }

  // What the ownership keys in a hooks table amount to.
  datatype Legacy = NoMarkers | MarkerSet(events: seq<string>, command: string) | Foreign

  ghost function LegacyOf(hooks: Table): Legacy {
    var total := CandidateTotal(hooks, HOOK_EVENTS);
    var first := EventCandidates(hooks, HOOK_EVENTS[0]);
    if CountKey(Object(hooks), MARKER) != total then Foreign
    else if total == 0 then NoMarkers
    else if |first| != 1 then Foreign
    else if IsMarkerSet(hooks, LEGACY_EVENTS, first[0]) then MarkerSet(LEGACY_EVENTS, first[0])
    else if IsMarkerSet(hooks, HOOK_EVENTS, first[0]) then MarkerSet(HOOK_EVENTS, first[0])
    else Foreign
  }

  predicate HooksReadable(cfg: Table) {
    "hooks" in cfg ==> cfg["hooks"].Object?
  }

  function HooksOf(cfg: Table): Table
    requires HooksReadable(cfg)
  {
    if "hooks" in cfg then cfg["hooks"].fields else map[]
  }

  // ----- Install -------------------------------------------------------------

  predicate CommandAllowed(command: string, desired: HookSpec, legacyOpt: string) {
    || (legacyOpt != "" && command == legacyOpt)
    || (desired.args.None? && command == desired.command)
  }

  predicate EventFree(entries: Json, desired: HookSpec, legacyOpt: string) {
    && EntriesOk(entries)
    && Hits(entries.items, desired) == 0
    && (legacyOpt != "" ==> Hits(entries.items, ShellSpec(legacyOpt)) == 0)
  }

  // When a fresh install accepts a settings object.
  ghost predicate FreshOk(cfg: Table, desired: HookSpec, legacyOpt: string) {
    && HooksReadable(cfg)
    && var hooks := HooksOf(cfg);
       && (forall e :: e in HOOK_EVENTS && e in hooks ==> EventFree(hooks[e], desired, legacyOpt))
       && match LegacyOf(hooks)
          case NoMarkers => true
          case MarkerSet(_, command) => CommandAllowed(command, desired, legacyOpt)
          case Foreign => false
  }

  // Each historical group becomes the managed group, in place.
  function Migrated(gs: seq<Json>, desired: HookSpec): (r: seq<Json>)
    ensures |r| == |gs|
    ensures forall i :: 0 <= i < |gs| ==>
              r[i] == if CandidateCommand(gs[i]).Some? then ManagedGroup(desired) else gs[i]
  {
    seq(|gs|, i requires 0 <= i < |gs| =>
      if CandidateCommand(gs[i]).Some? then ManagedGroup(desired) else gs[i])
  }

  function ItemsAt(hooks: Table, event: string): seq<Json> {
    if event in hooks && hooks[event].Array? then hooks[event].items else []
  }

  function InstalledEntries(hooks: Table, legacy: Legacy, event: string, desired: HookSpec): seq<Json> {
    if legacy.MarkerSet? && event in legacy.events then Migrated(ItemsAt(hooks, event), desired)
    else ItemsAt(hooks, event) + [ManagedGroup(desired)]
  }

  ghost function FreshHooks(hooks: Table, desired: HookSpec): Table {
    map e | e in hooks.Keys + (set x | x in HOOK_EVENTS) ::
      if e in HOOK_EVENTS then Array(InstalledEntries(hooks, LegacyOf(hooks), e, desired)) else hooks[e]
  }

  ghost function FreshConfig(cfg: Table, desired: HookSpec): Table
    requires HooksReadable(cfg)
  {
    cfg["hooks" := Object(FreshHooks(HooksOf(cfg), desired))]
  }

  // ----- Ownership and uninstall ---------------------------------------------

  predicate EntriesOwned(entries: Json, spec: HookSpec) {
    && EntriesOk(entries)
    && Candidates(entries.items) == []
    && ExactCount(entries.items, spec) == 1
    && Hits(entries.items, spec) == 1
  }

  // The state an active ownership record vouches for.
  ghost predicate Owned(cfg: Table, spec: HookSpec) {
    && "hooks" in cfg && cfg["hooks"].Object?
    && CountKey(cfg["hooks"], MARKER) == 0
    && forall e :: e in HOOK_EVENTS ==> e in cfg["hooks"].fields && EntriesOwned(cfg["hooks"].fields[e], spec)
  }

  function Without(gs: seq<Json>, g: Json): seq<Json> {
    if gs == [] then []
    else Without(gs[..|gs| - 1], g) + (if gs[|gs| - 1] == g then [] else [gs[|gs| - 1]])
  }

  function WithoutLegacy(gs: seq<Json>, command: string): seq<Json> {
    if gs == [] then []
    else
      WithoutLegacy(gs[..|gs| - 1], command) +
      (if CandidateCommand(gs[|gs| - 1]) == Some(command) then [] else [gs[|gs| - 1]])
  }

  // Replace the entries of the listed events, dropping an event left empty.
  function Pruned(hooks: Table, kept: map<string, seq<Json>>): Table {
    map e | e in hooks && !(e in kept && kept[e] == []) ::
      if e in kept then Array(kept[e]) else hooks[e]
  }

  function WithHooks(cfg: Table, hooks: Table): Table {
    if hooks == map[] then cfg - {"hooks"} else cfg["hooks" := Object(hooks)]
  }

  function OwnedKept(hooks: Table, events: seq<string>, spec: HookSpec): map<string, seq<Json>> {
    map e | e in events :: Without(ItemsAt(hooks, e), ManagedGroup(spec))
  }

  function OwnedUninstalled(cfg: Table, spec: HookSpec): Table
    requires HooksReadable(cfg)
  {
    WithHooks(cfg, Pruned(HooksOf(cfg), OwnedKept(HooksOf(cfg), HOOK_EVENTS, spec)))
  }

  function LegacyKept(hooks: Table, events: seq<string>, command: string): map<string, seq<Json>> {
    map e | e in events :: WithoutLegacy(ItemsAt(hooks, e), command)
  }

  function LegacyUninstalled(cfg: Table, events: seq<string>, command: string): Table
    requires HooksReadable(cfg)
  {
    WithHooks(cfg, Pruned(HooksOf(cfg), LegacyKept(HooksOf(cfg), events, command)))
  }

  // A hooks table with the managed events that hold no group removed.
  function NormalHooks(hooks: Table): Table {
    map e | e in hooks && !(e in HOOK_EVENTS && hooks[e] == Array([])) :: hooks[e]
  }

  // What an install followed by an uninstall leaves: managed events without
  // groups are gone, and then an empty hooks table is.
  function Normalized(cfg: Table): Table
    requires HooksReadable(cfg)
  {
    WithHooks(cfg, NormalHooks(HooksOf(cfg)))
  }
}
