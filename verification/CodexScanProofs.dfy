// How the region scanner behaves on facts put together from parts.
module CodexScanProofs {
  import opened Common
  import opened CodexLines
  import opened CodexRegions
  import opened CodexBlocks
  import opened CodexFacts

  predicate AllSilent(fs: seq<Fact>) {
    forall i :: 0 <= i < |fs| ==> !fs[i].marker && !fs[i].trailing && !fs[i].meta
  }

  // Text after a block of the event that does not carry the group on: no code
  // before its first header, and that header is not another handler of it.
  predicate Detached(fs: seq<Fact>, event: string) {
    if fs == [] then true
    else if fs[0].header.Some? then !IsHandlers(fs[0].header.value, event)
    else !fs[0].code && Detached(fs[1..], event)
  }

  // Nothing, or a new block.
  predicate StartsBlock(fs: seq<Fact>) {
    fs == [] || fs[0].marker
  }

  // ----- Where a group ends --------------------------------------------------

  lemma {:induction false} AotEndLater(pre: seq<Fact>, fs: seq<Fact>, i: nat, event: string, end: nat)
    requires i <= |fs|
    ensures AotEnd(pre + fs, |pre| + i, event, end) == AotEnd(fs, i, event, end)
    decreases |fs| - i
  {
    if i < |fs| {
      assert (pre + fs)[|pre| + i] == fs[i];
      AotEndLater(pre, fs, i + 1, event, fs[i].full);
      AotEndLater(pre, fs, i + 1, event, end);
    }
  }

  lemma {:induction false} AotEndAfterCode(fs: seq<Fact>, i: nat, n: nat, event: string, end: nat)
    requires i <= n <= |fs|
    requires forall k :: i <= k < n ==> !fs[k].marker && fs[k].header.None? && fs[k].code
    ensures AotEnd(fs, i, event, end) == AotEnd(fs, n, event, if i == n then end else fs[n - 1].full)
    decreases n - i
  {
    if i < n {
      AotEndAfterCode(fs, i + 1, n, event, fs[i].full);
    }
  }

  lemma {:induction false} AotEndDetached(user: seq<Fact>, next: seq<Fact>, event: string, end: nat)
    requires AllSilent(user) && Detached(user, event) && StartsBlock(next)
    ensures AotEnd(user + next, 0, event, end) == end
  {
    if user == [] {
      assert user + next == next;
    } else {
      assert user + next == user[..1] + (user[1..] + next);
      assert (user + next)[0] == user[0];
      if user[0].header.None? {
        AotEndDetached(user[1..], next, event, end);
        AotEndLater(user[..1], user[1..] + next, 0, event, end);
      }
    }
  }

  // A block's group ends with the block.
  lemma BlockEnds(b: seq<Fact>, block: Block, at: nat, end: nat, user: seq<Fact>, next: seq<Fact>)
    requires BlockShape(b, block, at, end)
    requires AllSilent(user) && Detached(user, block.event) && StartsBlock(next)
    ensures AotEnd(b + (user + next), 3, block.event, b[2].full) == end
  {
    var fs := b + (user + next);
    assert forall i :: 0 <= i < |b| ==> fs[i] == b[i];
    var at4 := AotEnd(fs, 4, block.event, if b[3].code then b[3].full else b[2].full);
    assert AotEnd(fs, 3, block.event, b[2].full) == at4;
    assert at4 == AotEnd(fs, 5, block.event, if b[4].code then b[4].full else if b[3].code then b[3].full else b[2].full);
    assert at4 == AotEnd(fs, 6, block.event, b[5].full);
    AotEndAfterCode(fs, 6, |b|, block.event, b[5].full);
    AotEndLater(b, user + next, 0, block.event, end);
    AotEndDetached(user, next, block.event, end);
  }

  // ----- Which group a block is ----------------------------------------------

  function GroupsIn(fs: seq<Fact>, event: string): nat {
    GroupsBefore(fs, |fs|, event)
  }

  lemma {:induction false} GroupsInPrefix(pre: seq<Fact>, fs: seq<Fact>, i: nat, event: string)
    requires i <= |pre|
    ensures GroupsBefore(pre + fs, i, event) == GroupsBefore(pre, i, event)
  {
    if i > 0 {
      assert (pre + fs)[i - 1] == pre[i - 1];
      GroupsInPrefix(pre, fs, i - 1, event);
    }
  }

  lemma {:induction false} GroupsAfter(pre: seq<Fact>, fs: seq<Fact>, i: nat, event: string)
    requires i <= |fs|
    ensures GroupsBefore(pre + fs, |pre| + i, event) == GroupsIn(pre, event) + GroupsBefore(fs, i, event)
  {
    if i == 0 {
      GroupsInPrefix(pre, fs, |pre|, event);
    } else {
      assert (pre + fs)[|pre| + i - 1] == fs[i - 1];
      GroupsAfter(pre, fs, i - 1, event);
    }
  }

  lemma GroupsJoin(a: seq<Fact>, b: seq<Fact>, event: string)
    ensures GroupsIn(a + b, event) == GroupsIn(a, event) + GroupsIn(b, event)
  {
    GroupsAfter(a, b, |b|, event);
  }

  lemma {:induction false} GroupsAlike(a: seq<Fact>, b: seq<Fact>, i: nat, event: string)
    requires i <= |a| && |a| == |b| && forall k :: 0 <= k < |a| ==> a[k].header == b[k].header
    ensures GroupsBefore(a, i, event) == GroupsBefore(b, i, event)
  {
    if i > 0 { GroupsAlike(a, b, i - 1, event); }
  }

  // A block adds one group, to its own event.
  lemma {:induction false} BlockGroups(b: seq<Fact>, block: Block, at: nat, end: nat, i: nat, event: string)
    requires BlockShape(b, block, at, end) && i <= |b|
    requires block.event in MANAGED_EVENTS
    ensures GroupsBefore(b, i, event) == if i > 2 && event == block.event then 1 else 0
  {
    if i > 0 {
      BlockGroups(b, block, at, end, i - 1, event);
    }
  }

  // ----- Collecting regions --------------------------------------------------

  lemma {:induction false} CollectSkips(text: string, fs: seq<Fact>, i: nat, n: nat)
    requires i <= n <= |fs| && forall k :: i <= k < n ==> !fs[k].marker
    ensures Collect(text, fs, i) == Collect(text, fs, n)
    decreases n - i
  {
    if i < n { CollectSkips(text, fs, i + 1, n); }
  }

  lemma {:induction false} HooksTableAfter(fs: seq<Fact>, more: seq<Fact>, inHooks: bool)
    requires !AnyInline(fs, inHooks) && (forall h :: !AnyInline(more, h))
    ensures !AnyInline(fs + more, inHooks)
  {
    if fs == [] {
      assert fs + more == more;
    } else {
      assert (fs + more)[1..] == fs[1..] + more && (fs + more)[0] == fs[0];
      if fs[0].header.Some? {
        HooksTableAfter(fs[1..], more, !fs[0].header.value.isArray && fs[0].header.value.path == ["hooks"]);
      } else {
        HooksTableAfter(fs[1..], more, inHooks);
      }
    }
  }

  lemma {:induction false} InlineSkips(fs: seq<Fact>, n: nat)
    requires n <= |fs|
    requires forall k :: 0 <= k < n ==> fs[k].header.Some? ==> fs[k].header.value.isArray
    ensures AnyInline(fs, false) == AnyInline(fs[n..], false)
  {
    if n > 0 {
      assert fs[1..][n - 1..] == fs[n..];
      InlineSkips(fs[1..], n - 1);
    } else {
      assert fs[0..] == fs;
    }
  }

  // A block leaves the hooks table.
  lemma BlockLeavesHooks(b: seq<Fact>, block: Block, at: nat, end: nat, rest: seq<Fact>, inHooks: bool)
    requires BlockShape(b, block, at, end) && !AnyInline(rest, false)
    ensures !AnyInline(b + rest, inHooks)
  {
    var fs := b + rest;
    assert forall k :: 0 <= k < |b| ==> fs[k] == b[k];
    assert fs[1..][1..] == fs[2..] && fs[2..][1..] == fs[3..];
    assert AnyInline(fs, inHooks) == AnyInline(fs[1..], inHooks) == AnyInline(fs[2..], inHooks) == AnyInline(fs[3..], false);
    assert fs[3..][|b| - 3..] == rest;
    InlineSkips(fs[3..], |b| - 3);
  }

  // ----- Metadata and trailing markers ---------------------------------------

  predicate MetaFine(fs: seq<Fact>) {
    forall i :: 0 <= i < |fs| ==> MetaOwned(fs, i)
  }

  predicate NoTrailing(fs: seq<Fact>) {
    forall i :: 0 <= i < |fs| ==> !fs[i].trailing
  }

  lemma SilentIsFine(fs: seq<Fact>)
    requires AllSilent(fs)
    ensures MetaFine(fs) && NoTrailing(fs)
  {
  }

  lemma BlockIsFine(b: seq<Fact>, block: Block, at: nat, end: nat)
    requires BlockShape(b, block, at, end)
    ensures MetaFine(b) && NoTrailing(b)
  {
  }

  lemma FineJoin(a: seq<Fact>, b: seq<Fact>)
    requires MetaFine(a) && MetaFine(b) && NoTrailing(a) && NoTrailing(b)
    ensures MetaFine(a + b) && NoTrailing(a + b)
  {
    forall i | 0 <= i < |a + b|
      ensures MetaOwned(a + b, i)
    {
      if i < |a| {
        assert MetaOwned(a, i);
      } else {
        assert MetaOwned(b, i - |a|);
        assert (a + b)[i] == b[i - |a|];
        if i > |a| { assert (a + b)[i - 1] == b[i - |a| - 1]; }
      }
    }
  }

  // ----- A block among other facts -------------------------------------------

  // The region of a block whose facts follow the user's.
  function BlockRegion(block: Block, start: nat, end: nat, index: nat): Region {
    Region(block.event, start, end, block.lent, index)
  }

  lemma OwnedBlock(text: string, before: seq<Fact>, b: seq<Fact>, block: Block, at: nat, end: nat,
                   user: seq<Fact>, next: seq<Fact>)
    requires BlockShape(b, block, at, end) && block.event in MANAGED_EVENTS && at <= |text|
    requires block.lent ==> at > 0 && text[at - 1] == '\n'
    requires AllSilent(user) && Detached(user, block.event) && StartsBlock(next)
    ensures var fs := before + (b + (user + next));
            OwnedRegion(text, fs, |before|) ==
            Ok(BlockRegion(block, if block.lent then at - 1 else at, end, GroupsIn(before, block.event)))
  {
    var more := b + (user + next);
    var fs := before + more;
    assert fs[|before|] == b[0] && fs[|before| + 1] == b[1] && fs[|before| + 2] == b[2];
    AotEndLater(before, more, 3, block.event, b[2].full);
    BlockEnds(b, block, at, end, user, next);
    GroupsAfter(before, more, 2, block.event);
    GroupsInPrefix(b, user + next, 2, block.event);
    BlockGroups(b, block, at, end, 2, block.event);
    hide AotEnd, GroupsBefore, AllSilent, Detached;
  }

  // Collecting goes over the user's facts, takes the block and goes on after it.
  lemma CollectBlock(text: string, fs: seq<Fact>, pre: seq<Fact>, front: seq<Fact>, b: seq<Fact>, block: Block,
                     at: nat, end: nat, user: seq<Fact>, next: seq<Fact>, found: seq<Region>)
    requires AllSilent(front) && BlockShape(b, block, at, end) && block.event in MANAGED_EVENTS && at <= |text|
    requires block.lent ==> at > 0 && text[at - 1] == '\n'
    requires AllSilent(user) && Detached(user, block.event) && StartsBlock(next)
    requires fs == (pre + front) + (b + (user + next))
    requires Collect(text, fs, |pre| + |front| + |b|) == Ok(found)
    ensures Collect(text, fs, |pre|) ==
            Ok([BlockRegion(block, if block.lent then at - 1 else at, end, GroupsIn(pre + front, block.event))] + found)
  {
    var k := |pre| + |front|;
    hide *;
    MarkersOf(pre, front, b, user + next, block, at, end);
    OwnedBlock(text, pre + front, b, block, at, end, user, next);
    assert |pre + front| == k;
    CollectOne(text, fs, |pre|, k, k + |b|);
  }

  lemma MarkersOf(pre: seq<Fact>, front: seq<Fact>, b: seq<Fact>, rest: seq<Fact>, block: Block, at: nat, end: nat)
    requires AllSilent(front) && BlockShape(b, block, at, end)
    ensures |b| > 0
    ensures var fs, k := (pre + front) + (b + rest), |pre| + |front|;
            && (forall i :: |pre| <= i < k ==> !fs[i].marker) && fs[k].marker
            && (forall i :: k < i < k + |b| ==> !fs[i].marker)
  {
    var fs, k := (pre + front) + (b + rest), |pre| + |front|;
    assert forall i :: |pre| <= i < k ==> fs[i] == front[i - |pre|];
    assert forall i :: k <= i < k + |b| ==> fs[i] == b[i - k];
  }

  // Collecting from line i, when line k holds the next marker and line n is
  // past its block.
  lemma CollectOne(text: string, fs: seq<Fact>, i: nat, k: nat, n: nat)
    requires i <= k < n <= |fs|
    requires (forall j :: i <= j < k ==> !fs[j].marker) && fs[k].marker && (forall j :: k < j < n ==> !fs[j].marker)
    requires OwnedRegion(text, fs, k).Ok? && Collect(text, fs, n).Ok?
    ensures Collect(text, fs, i) == Ok([OwnedRegion(text, fs, k).value] + Collect(text, fs, n).value)
  {
    hide OwnedRegion;
    CollectSkips(text, fs, i, k);
    CollectSkips(text, fs, k + 1, n);
  }
}
