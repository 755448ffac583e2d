// The Codex config file and the two commands that change it.
module CodexFile {
  import opened Common
  import opened TextEdits
  import opened CodexLines
  import opened CodexRegions
  import opened CodexBlocks
  import opened CodexRewrite
  import opened CodexConfig
  import opened CodexScanner
  import opened CodexInstall

  method RegionEdits(os: seq<Owned>) returns (es: seq<Edit>)
    ensures es == RemovalsOf(Regions(os))
  {
    es := [];
    ghost var all := RemovalsOf(Regions(os));
    assert os[0..] == os && [] + all == all;
    var i := 0;
    while i < |os|
      invariant i <= |os| && es + RemovalsOf(Regions(os[i..])) == all
    {
      assert os[i..][1..] == os[i + 1..];
      assert Regions(os[i..])[1..] == Regions(os[i + 1..]);
      var r := os[i].region;
      assert es + ([Edit(r.start, r.end, "")] + RemovalsOf(Regions(os[i + 1..]))) ==
             (es + [Edit(r.start, r.end, "")]) + RemovalsOf(Regions(os[i + 1..]));
      es, i := es + [Edit(r.start, r.end, "")], i + 1;
    }
  }

  // stripManaged
  method StripManaged(text: string, os: seq<Owned>) returns (r: string)
    requires Placed(os, text)
    ensures r == Strip(text, os)
  {
    var edits := RegionEdits(os);
    RemovalsAscend(Regions(os), 0, |text|);
    r := Rewrite(text, edits);
  }

  // The pass of install that prints drifted groups anew.
  method Reassert(printable: char -> bool, text: string, os: seq<Owned>, command: string, windows: string)
    returns (r: string)
    requires Placed(os, text)
    ensures r == Reasserted(printable, text, os, command, windows)
  {
    var edits: seq<Edit> := [];
    ghost var all := Reasserts(printable, os, command, windows);
    assert os[0..] == os && [] + all == all;
    var i := 0;
    while i < |os|
      invariant i <= |os| && edits + Reasserts(printable, os[i..], command, windows) == all
    {
      assert os[i..][1..] == os[i + 1..];
      var o := os[i];
      ghost var rest := Reasserts(printable, os[i + 1..], command, windows);
      if UpToDate(o, command, windows) {
        assert [] + rest == rest;
      } else {
        var e := Edit(o.region.start, o.region.end, Render(printable, WantedBlock(o, command, windows)));
        assert edits + ([e] + rest) == (edits + [e]) + rest;
        edits := edits + [e];
      }
      i := i + 1;
    }
    assert edits + [] == edits;
    ReassertsAscend(printable, os, command, windows, 0, |text|);
    r := Rewrite(text, edits);
  }

  // The pass of install that appends the missing groups.
  method Append(printable: char -> bool, os: seq<Owned>, command: string, windows: string, needsNewline: bool)
    returns (r: string)
    ensures r == RenderAll(printable, NewBlocks(os, MANAGED_EVENTS, command, windows, needsNewline))
  {
    hide MANAGED_EVENTS, Render, Has;
    r := "";
    var lent, i := needsNewline, 0;
    ghost var all := RenderAll(printable, NewBlocks(os, MANAGED_EVENTS, command, windows, needsNewline));
    assert MANAGED_EVENTS[0..] == MANAGED_EVENTS && "" + all == all;
    while i < |MANAGED_EVENTS|
      invariant i <= |MANAGED_EVENTS|
      invariant r + RenderAll(printable, NewBlocks(os, MANAGED_EVENTS[i..], command, windows, lent)) == all
    {
      var event := MANAGED_EVENTS[i];
      assert MANAGED_EVENTS[i..][1..] == MANAGED_EVENTS[i + 1..];
      if !Has(os, event) {
        var b := Block(event, command, windows, lent);
        ghost var more := NewBlocks(os, MANAGED_EVENTS[i + 1..], command, windows, false);
        assert ([b] + more)[1..] == more;
        assert r + (Render(printable, b) + RenderAll(printable, more)) == (r + Render(printable, b)) + RenderAll(printable, more);
        r, lent := r + Render(printable, b), false;
      }
      i := i + 1;
    }
    assert r + "" == r;
  }

  method CheckComplete(os: seq<Owned>, command: string, windows: string) returns (ok: bool)
    ensures ok == Complete(os, command, windows)
  {
    hide MANAGED_EVENTS;
    for i := 0 to |MANAGED_EVENTS|
      invariant forall k :: 0 <= k < i ==>
        exists j :: 0 <= j < |os| && os[j].region.event == MANAGED_EVENTS[k] && os[j].command == command &&
                    (windows != "" ==> os[j].windows == windows)
    {
      var found, j := false, 0;
      while j < |os| && !found
        invariant j <= |os|
        invariant found == exists k :: 0 <= k < j && os[k].region.event == MANAGED_EVENTS[i] && os[k].command == command &&
                                       (windows != "" ==> os[k].windows == windows)
      {
        var o := os[j];
        found := o.region.event == MANAGED_EVENTS[i] && o.command == command && (windows == "" || o.windows == windows);
        j := j + 1;
      }
      if !found {
        assert MANAGED_EVENTS[i] in MANAGED_EVENTS;
        return false;
      }
    }
    return true;
  }

  class ConfigFile {
    var text: Option<string>

    constructor (initial: Option<string>)
      ensures text == initial
    {
      text := initial;
    }

    // An absent file reads as an empty one.
    function Contents(): string
      reads this
    {
      if text.Some? then text.value else ""
    }

    method Install(decode: Decoder, printable: char -> bool, command: string, windows: string)
      returns (r: Result<bool, Refusal>)
      modifies this
      ensures command == "" ==> r == Err(NoCommand) && text == old(text)
      ensures command != "" ==>
                var result := InstallText(decode, printable, old(Contents()), command, windows);
                && (result.Err? ==> r == Err(result.error) && text == old(text))
                && (result.Ok? ==> r == Ok(result.value != old(Contents())))
                && (r == Ok(false) ==> text == old(text))
                && (r == Ok(true) ==> text == Some(result.value))
    {
      if command == "" { return Err(NoCommand); }
      var original := Contents();
      var before := AnalyzeConfig(decode, original, command, windows, true);
      if before.Err? { return Err(before.error); }
      AnalyzedIsPlaced(decode, original, command, windows, true);
      hide Analyze, Placed, Complete;
      var baseline := StripManaged(original, before.value);
      var interim := Reassert(printable, original, before.value, command, windows);
      var mid := AnalyzeConfig(decode, interim, command, windows, true);
      if mid.Err? { return Err(mid.error); }
      var added := Append(printable, mid.value, command, windows, NeedsNewline(interim));
      var out := interim + added;
      var final := AnalyzeConfig(decode, out, command, windows, true);
      if final.Err? { return Err(Invalid); }
      var complete := CheckComplete(final.value, command, windows);
      if !complete { return Err(Invalid); }
      AnalyzedIsPlaced(decode, out, command, windows, true);
      var kept := StripManaged(out, final.value);
      if kept != baseline { return Err(Invalid); }
      if out != original { text := Some(out); }
      return Ok(out != original);
    }

    method Uninstall(decode: Decoder) returns (r: Result<bool, Refusal>)
      modifies this
      ensures old(text).None? ==> r == Ok(false) && text == None
      ensures old(text).Some? ==>
                var result := UninstallText(decode, old(Contents()));
                && (result.Err? ==> r == Err(result.error) && text == old(text))
                && (result.Ok? ==> r.Ok? && text == Some(result.value) &&
                                   (r.value <==> Analyze(decode, old(Contents()), "", "", false) != Ok([])))
    {
      if text.None? { return Ok(false); }
      var original := text.value;
      var parsed := AnalyzeConfig(decode, original, "", "", false);
      if parsed.Err? { return Err(parsed.error); }
      if parsed.value == [] { return Ok(false); }
      AnalyzedIsPlaced(decode, original, "", "", false);
      hide Analyze, Placed;
      var cleaned := StripManaged(original, parsed.value);
      var again := AnalyzeConfig(decode, cleaned, "", "", false);
      if again.Err? { return Err(Invalid); }
      text := Some(cleaned);
      return Ok(true);
    }
  }
}
