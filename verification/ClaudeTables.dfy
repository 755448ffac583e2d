// The merges make tables that the JSON reader can return of tables that it has
// returned.
module ClaudeTables {
  import opened Json
  import opened ClaudeMerge

  // How deep encoding/json lets arrays and objects nest.
  const MAX_NESTING := 10000

  // An object that the reader can return.
  predicate ReaderTable(t: Table) {
    Decodable(Object(t), MAX_NESTING)
  }

  lemma HandlerDecodable(spec: HookSpec, room: nat)
    requires room >= 2
    ensures Decodable(HandlerObject(spec), room)
  {
  }

  lemma ManagedGroupDecodable(spec: HookSpec, room: nat)
    requires room >= 4
    ensures Decodable(ManagedGroup(spec), room)
  {
    HandlerDecodable(spec, room - 2);
    hide HandlerObject;
  }

  // Every group, with room for the arrays and objects in it.
  predicate GroupsDecodable(gs: seq<Json>, room: nat) {
    forall i :: 0 <= i < |gs| ==> Decodable(gs[i], room)
  }

  predicate HooksDecodable(hooks: Table, room: nat) {
    forall k :: k in hooks ==> Decodable(hooks[k], room)
  }

  lemma ItemsDecodable(hooks: Table, event: string, room: nat)
    requires HooksDecodable(hooks, room + 1)
    ensures GroupsDecodable(ItemsAt(hooks, event), room)
  {
  }

  lemma ConfigHooks(cfg: Table)
    requires ReaderTable(cfg) && HooksReadable(cfg)
    ensures HooksDecodable(HooksOf(cfg), MAX_NESTING - 2)
  {
    if "hooks" in cfg { assert Decodable(cfg["hooks"], MAX_NESTING - 1); }
  }

  lemma WithHooksDecodable(cfg: Table, hooks: Table)
    requires ReaderTable(cfg) && HooksDecodable(hooks, MAX_NESTING - 2)
    ensures ReaderTable(cfg["hooks" := Object(hooks)]) && ReaderTable(WithHooks(cfg, hooks))
  {
    assert Decodable(Object(hooks), MAX_NESTING - 1);
  }

  lemma InstalledDecodable(hooks: Table, legacy: Legacy, event: string, desired: HookSpec, room: nat)
    requires HooksDecodable(hooks, room + 1) && room >= 4
    ensures GroupsDecodable(InstalledEntries(hooks, legacy, event, desired), room)
  {
    ItemsDecodable(hooks, event, room);
    ManagedGroupDecodable(desired, room);
    hide Decodable;
  }

  lemma FreshDecodable(cfg: Table, desired: HookSpec)
    requires ReaderTable(cfg) && HooksReadable(cfg)
    ensures ReaderTable(FreshConfig(cfg, desired))
  {
    hide LegacyOf, InstalledEntries, HOOK_EVENTS;
    var hooks := HooksOf(cfg);
    ConfigHooks(cfg);
    var after := FreshHooks(hooks, desired);
    forall k | k in after
      ensures Decodable(after[k], MAX_NESTING - 2)
    {
      InstalledDecodable(hooks, LegacyOf(hooks), k, desired, MAX_NESTING - 3);
    }
    WithHooksDecodable(cfg, after);
  }

  lemma {:induction false} WithoutDecodable(gs: seq<Json>, g: Json, command: string, room: nat)
    requires GroupsDecodable(gs, room)
    ensures GroupsDecodable(Without(gs, g), room) && GroupsDecodable(WithoutLegacy(gs, command), room)
  {
    hide Decodable, CandidateCommand;
    if gs != [] { WithoutDecodable(gs[..|gs| - 1], g, command, room); }
  }

  lemma PrunedDecodable(hooks: Table, kept: map<string, seq<Json>>)
    requires HooksDecodable(hooks, MAX_NESTING - 2)
    requires forall e :: e in kept ==> GroupsDecodable(kept[e], MAX_NESTING - 3)
    ensures HooksDecodable(Pruned(hooks, kept), MAX_NESTING - 2)
  {
  }

  lemma UninstalledDecodable(cfg: Table, spec: HookSpec, events: seq<string>, command: string)
    requires ReaderTable(cfg) && HooksReadable(cfg)
    ensures ReaderTable(OwnedUninstalled(cfg, spec)) && ReaderTable(LegacyUninstalled(cfg, events, command))
  {
    hide Decodable, ItemsAt, HOOK_EVENTS, Without, WithoutLegacy, HooksDecodable, GroupsDecodable;
    var hooks := HooksOf(cfg);
    ConfigHooks(cfg);
    forall e
      ensures GroupsDecodable(Without(ItemsAt(hooks, e), ManagedGroup(spec)), MAX_NESTING - 3)
      ensures GroupsDecodable(WithoutLegacy(ItemsAt(hooks, e), command), MAX_NESTING - 3)
    {
      ItemsDecodable(hooks, e, MAX_NESTING - 3);
      WithoutDecodable(ItemsAt(hooks, e), ManagedGroup(spec), command, MAX_NESTING - 3);
    }
    PrunedDecodable(hooks, OwnedKept(hooks, HOOK_EVENTS, spec));
    PrunedDecodable(hooks, LegacyKept(hooks, events, command));
    WithHooksDecodable(cfg, Pruned(hooks, OwnedKept(hooks, HOOK_EVENTS, spec)));
    WithHooksDecodable(cfg, Pruned(hooks, LegacyKept(hooks, events, command)));
  }
}
