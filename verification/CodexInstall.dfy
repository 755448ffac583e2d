// Installing and uninstalling the hook blocks of a Codex config.
module CodexInstall {
  import opened Common
  import opened Json
  import opened TextEdits
  import opened CodexLines
  import opened CodexRegions
  import opened CodexBlocks
  import opened CodexFacts
  import opened CodexDocument
  import opened CodexRewrite
  import opened CodexConfig

  function Regions(os: seq<Owned>): seq<Region> {
    if os == [] then [] else [os[0].region] + Regions(os[1..])
  }

  // Regions the scanner accepts can all be rewritten.
  ghost predicate Placed(os: seq<Owned>, text: string) {
    InOrder(Regions(os), 0, |text|)
  }

  lemma {:induction false} OwnedRegions(hooks: Table, rs: seq<Region>)
    requires OwnedGroups(hooks, rs).Ok?
    ensures Regions(OwnedGroups(hooks, rs).value) == rs
  {
    if rs != [] { OwnedRegions(hooks, rs[1..]); }
  }

  lemma {:induction false} OkInOrder(text: string, rs: seq<Region>, lo: nat)
    requires lo <= |text| && forall i :: 0 <= i < |rs| ==> lo <= rs[i].start < rs[i].end <= |text|
    requires forall i :: 0 < i < |rs| ==> rs[i - 1].end <= rs[i].start
    ensures InOrder(rs, lo, |text|)
  {
    if rs != [] {
      forall i | 0 <= i < |rs[1..]|
        ensures rs[0].end <= rs[1..][i].start < rs[1..][i].end <= |text|
      {
        LaterStart(text, rs, i + 1);
      }
      OkInOrder(text, rs[1..], rs[0].end);
    }
  }

  lemma {:induction false} LaterStart(text: string, rs: seq<Region>, i: nat)
    requires 0 < i < |rs| && forall i :: 0 <= i < |rs| ==> rs[i].start < rs[i].end <= |text|
    requires forall i :: 0 < i < |rs| ==> rs[i - 1].end <= rs[i].start
    ensures rs[0].end <= rs[i].start
  {
    if i > 1 { LaterStart(text, rs, i - 1); }
  }

  lemma AnalyzedIsPlaced(decode: Decoder, text: string, command: string, windows: string, check: bool)
    requires Analyze(decode, text, command, windows, check).Ok?
    ensures Placed(Analyze(decode, text, command, windows, check).value, text)
  {
    hide EventMapped, Clashes, AnyInline, TextFacts;
    var fs, hooks := TextFacts(text, 0), HooksTable(decode(text).value).value;
    var rs := ScanRegions(text, fs).value;
    assert rs == [] || RegionsOk(text, rs);
    OwnedRegions(hooks, rs);
    OkInOrder(text, rs, 0);
  }

  // stripManaged
  function Strip(text: string, os: seq<Owned>): string
    requires Placed(os, text)
  {
    RemovalsAscend(Regions(os), 0, |text|);
    Rewritten(text, 0, RemovalsOf(Regions(os)))
  }

  lemma {:induction false} ReassertsAscend(printable: char -> bool, os: seq<Owned>, command: string,
                                           windows: string, lo: nat, hi: nat)
    requires InOrder(Regions(os), lo, hi)
    ensures Ascending(Reasserts(printable, os, command, windows), lo, hi)
  {
    if os != [] {
      var o := os[0];
      ReassertsAscend(printable, os[1..], command, windows, o.region.end, hi);
      var rest := Reasserts(printable, os[1..], command, windows);
      if UpToDate(o, command, windows) {
        assert [] + rest == rest;
        AscendEarlier(rest, lo, o.region.end, hi);
      } else {
        var e := Edit(o.region.start, o.region.end, Render(printable, WantedBlock(o, command, windows)));
        assert ([e] + rest)[1..] == rest;
      }
    }
  }

  lemma AscendEarlier(es: seq<Edit>, lo: nat, mid: nat, hi: nat)
    requires lo <= mid && Ascending(es, mid, hi)
    ensures Ascending(es, lo, hi)
  {
    AscendingFits(es, mid, hi);
  }

  // The text with the managed groups printed anew where they differ.
  function Reasserted(printable: char -> bool, text: string, os: seq<Owned>, command: string, windows: string): string
    requires Placed(os, text)
  {
    ReassertsAscend(printable, os, command, windows, 0, |text|);
    Rewritten(text, 0, Reasserts(printable, os, command, windows))
  }

  predicate NeedsNewline(text: string) {
    text != "" && text[|text| - 1] != '\n'
  }

  predicate Has(os: seq<Owned>, event: string) {
    ManagedIndex(os, event).Some?
  }

  // The blocks of the events without one; only the first may lend a newline.
  function NewBlocks(os: seq<Owned>, events: seq<string>, command: string, windows: string, lent: bool): seq<Block> {
    if events == [] then []
    else if Has(os, events[0]) then NewBlocks(os, events[1..], command, windows, lent)
    else [Block(events[0], command, windows, lent)] + NewBlocks(os, events[1..], command, windows, false)
  }

  function RenderAll(printable: char -> bool, bs: seq<Block>): string {
    if bs == [] then "" else Render(printable, bs[0]) + RenderAll(printable, bs[1..])
  }

  // Every event has a group with the commands asked for.
  predicate Complete(os: seq<Owned>, command: string, windows: string) {
    forall e :: e in MANAGED_EVENTS ==>
      exists i :: 0 <= i < |os| && os[i].region.event == e && os[i].command == command &&
                  (windows != "" ==> os[i].windows == windows)
  }

  // install: the text to be written.
  function InstallText(decode: Decoder, printable: char -> bool, text: string, command: string, windows: string)
    : Result<string, Refusal>
  {
    var before := Analyze(decode, text, command, windows, true);
    if before.Err? then Err(before.error)
    else
      AnalyzedIsPlaced(decode, text, command, windows, true);
      var interim := Reasserted(printable, text, before.value, command, windows);
      var mid := Analyze(decode, interim, command, windows, true);
      if mid.Err? then Err(mid.error)
      else
        var added := NewBlocks(mid.value, MANAGED_EVENTS, command, windows, NeedsNewline(interim));
        var out := interim + RenderAll(printable, added);
        var final := Analyze(decode, out, command, windows, true);
        if final.Err? || !Complete(final.value, command, windows) then Err(Invalid)
        else
          AnalyzedIsPlaced(decode, out, command, windows, true);
          if Strip(out, final.value) != Strip(text, before.value) then Err(Invalid) else Ok(out)
  }

  // uninstall: the text to be written, the same text when nothing is managed.
  function UninstallText(decode: Decoder, text: string): Result<string, Refusal> {
    var parsed := Analyze(decode, text, "", "", false);
    if parsed.Err? then Err(parsed.error)
    else if parsed.value == [] then Ok(text)
    else
      AnalyzedIsPlaced(decode, text, "", "", false);
      var cleaned := Strip(text, parsed.value);
      if Analyze(decode, cleaned, "", "", false).Err? then Err(Invalid) else Ok(cleaned)
  }
}
