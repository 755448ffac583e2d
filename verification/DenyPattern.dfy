// The matcher of deny patterns against paths.
module DenyPattern {
  import opened Common
  import opened Strings

  // A glob against a whole name, and nothing for a malformed pattern.
  type Glob = (string, string) -> Option<bool>

  // The strict pass: the path and every suffix of it after a slash.
  function Strict(glob: Glob, pattern: string, name: string): Option<bool>
    decreases |name|
  {
    var whole := glob(pattern, name);
    if whole.None? || whole.value then whole
    else
      var j := IndexOf(name, '/');
      if j + 1 >= |name| then Some(false) else Strict(glob, pattern, name[j + 1..])
  }

  // Where part first occurs in s.
  function FindFirst(s: string, part: string): (r: Option<nat>)
    ensures r.Some? ==> r.value + |part| <= |s| && s[r.value..r.value + |part|] == part
  {
    if |s| < |part| then None
    else if s[..|part|] == part then Some(0)
    else
      var rest := FindFirst(s[1..], part);
      if rest.None? then None
      else
        assert s[1..][rest.value..rest.value + |part|] == s[1 + rest.value..1 + rest.value + |part|];
        Some(1 + rest.value)
  }

  // The fallback pass: each part after the one before it, the earliest place
  // being taken.
  function Greedy(parts: seq<string>, s: string): bool {
    if parts == [] then true
    else if parts[0] == "" then Greedy(parts[1..], s)
    else
      var at := FindFirst(s, parts[0]);
      at.Some? && Greedy(parts[1..], s[at.value + |parts[0]|..])
  }

  // Literals and at least one star.
  predicate StarPattern(pattern: string) {
    '*' in pattern && '?' !in pattern && '[' !in pattern && '\\' !in pattern
  }

  // matchPath
  function Matches(lower: string -> string, glob: Glob, pattern: string, path: string): bool {
    var p, name := lower(pattern), lower(path);
    var strict := Strict(glob, p, name);
    if strict.None? then false
    else if strict.value then true
    else StarPattern(p) && Greedy(Split(p, '*'), name)
  }

  method MatchPath(lower: string -> string, glob: Glob, pattern: string, path: string) returns (r: bool)
    ensures r == Matches(lower, glob, pattern, path)
  {
    var p, name := lower(pattern), lower(path);
    var i := 0;
    assert name[0..] == name;
    while true
      invariant i <= |name| && Strict(glob, p, name[i..]) == Strict(glob, p, name)
      invariant i < |name| || i == 0
      decreases |name| - i
    {
      var ok := glob(p, name[i..]);
      if ok.None? { return false; }
      if ok.value { return true; }
      var j := IndexOf(name[i..], '/');
      if j == |name| - i { break; }
      assert i + j + 1 < |name| ==> name[i..][j + 1..] == name[i + j + 1..];
      if i + j + 1 == |name| { break; }
      i := i + j + 1;
    }
    if !StarPattern(p) { return false; }
    r := MatchParts(Split(p, '*'), name);
  }

  method MatchParts(parts: seq<string>, name: string) returns (r: bool)
    ensures r == Greedy(parts, name)
  {
    hide FindFirst;
    var idx: nat, k: nat := 0, 0;
    assert parts[0..] == parts && name[0..] == name;
    while k < |parts|
      invariant k <= |parts| && idx <= |name| && Greedy(parts[k..], name[idx..]) == Greedy(parts, name)
    {
      assert parts[k..][1..] == parts[k + 1..];
      if parts[k] != "" {
        var found := FindFirst(name[idx..], parts[k]);
        if found.None? { return false; }
        assert name[idx..][found.value + |parts[k]|..] == name[idx + found.value + |parts[k]|..];
        idx := idx + found.value + |parts[k]|;
      }
      k := k + 1;
    }
    return true;
  }

  // ----- What a star pattern means -------------------------------------------

  predicate OccursAt(s: string, part: string, k: nat) {
    k + |part| <= |s| && s[k..k + |part|] == part
  }

  // The parts occur in s one after the other, without overlap.
  ghost predicate InOrder(parts: seq<string>, s: string) {
    if parts == [] then true
    else exists k: nat :: OccursAt(s, parts[0], k) && InOrder(parts[1..], s[k + |parts[0]|..])
  }

  // With more text in front, parts that occur still do.
  lemma {:induction false} InOrderLater(parts: seq<string>, s: string, n: nat)
    requires n <= |s| && InOrder(parts, s[n..])
    ensures InOrder(parts, s)
  {
    if parts != [] {
      var part := parts[0];
      var k: nat :| OccursAt(s[n..], part, k) && InOrder(parts[1..], s[n..][k + |part|..]);
      assert s[n..][k..k + |part|] == s[n + k..n + k + |part|];
      assert s[n..][k + |part|..] == s[n + k + |part|..];
      assert OccursAt(s, part, n + k);
    }
  }

  lemma {:induction false} FirstIsEarliest(s: string, part: string, k: nat)
    requires OccursAt(s, part, k)
    ensures FindFirst(s, part).Some? && FindFirst(s, part).value <= k
  {
    if k > 0 && s[..|part|] != part {
      assert s[1..][k - 1..k - 1 + |part|] == s[k..k + |part|];
      FirstIsEarliest(s[1..], part, k - 1);
    }
  }

  // The greedy search finds the parts whenever they occur in order.
  lemma {:induction false} GreedyIsComplete(parts: seq<string>, s: string)
    ensures Greedy(parts, s) <==> InOrder(parts, s)
    decreases |parts|
  {
    hide FindFirst;
    if parts != [] {
      var part, rest := parts[0], parts[1..];
      if part == "" {
        GreedyIsComplete(rest, s);
        EmptyPart(parts, s);
      } else {
        var at := FindFirst(s, part);
        if Greedy(parts, s) {
          GreedyIsComplete(rest, s[at.value + |part|..]);
          assert OccursAt(s, part, at.value);
        }
        if InOrder(parts, s) {
          var k: nat :| OccursAt(s, part, k) && InOrder(rest, s[k + |part|..]);
          FirstIsEarliest(s, part, k);
          var n := at.value + |part|;
          assert s[n..][k - at.value..] == s[k + |part|..];
          InOrderLater(rest, s[n..], k - at.value);
          GreedyIsComplete(rest, s[n..]);
        }
      }
    }
  }

  lemma EmptyPart(parts: seq<string>, s: string)
    requires parts != [] && parts[0] == ""
    ensures InOrder(parts, s) <==> InOrder(parts[1..], s)
  {
    if InOrder(parts, s) {
      var k: nat :| OccursAt(s, parts[0], k) && InOrder(parts[1..], s[k + |parts[0]|..]);
      InOrderLater(parts[1..], s, k);
    }
    if InOrder(parts[1..], s) {
      assert s[0..0] == "" && s[0 + |parts[0]|..] == s;
      assert OccursAt(s, parts[0], 0);
    }
  }

  // ----- The glob of a star pattern ------------------------------------------

  // path.Match for literals and stars: a star matches any run without slashes.
  predicate StarMatch(pattern: string, name: string)
    decreases |pattern|, |name|
  {
    if pattern == "" then name == ""
    else if pattern[0] == '*' then
      StarMatch(pattern[1..], name) || (name != "" && name[0] != '/' && StarMatch(pattern, name[1..]))
    else name != "" && name[0] == pattern[0] && StarMatch(pattern[1..], name[1..])
  }

  // The glob library agrees with that on star patterns.
  ghost predicate Globs(glob: Glob) {
    forall p, name :: StarPattern(p) ==> glob(p, name) == Some(StarMatch(p, name))
  }

  // A literal run in front of a pattern is a part.
  lemma SplitParts(pattern: string)
    ensures var n := IndexOf(pattern, '*');
            Split(pattern, '*') == if n == |pattern| then [pattern] else [pattern[..n]] + Split(pattern[n + 1..], '*')
  {
  }

  // Matching a literal run takes it off the name.
  lemma {:induction false} LiteralRun(pattern: string, name: string, n: nat)
    requires n <= |pattern| && '*' !in pattern[..n] && StarMatch(pattern, name)
    ensures n <= |name| && name[..n] == pattern[..n] && StarMatch(pattern[n..], name[n..])
  {
    if n == 0 {
      assert pattern[0..] == pattern && name[0..] == name;
    } else {
      assert pattern[0] == pattern[..n][0];
      assert pattern[1..][..n - 1] == pattern[..n][1..];
      LiteralRun(pattern[1..], name[1..], n - 1);
      assert pattern[1..][n - 1..] == pattern[n..] && name[1..][n - 1..] == name[n..];
      assert name[..n] == [name[0]] + name[1..][..n - 1] && pattern[..n] == [pattern[0]] + pattern[1..][..n - 1];
    }
  }

  // Behind a star, the rest of the pattern matches some suffix.
  lemma {:induction false} StarRun(pattern: string, name: string) returns (n: nat)
    requires pattern != "" && pattern[0] == '*' && StarMatch(pattern, name)
    ensures n <= |name| && StarMatch(pattern[1..], name[n..])
    decreases |name|
  {
    if StarMatch(pattern[1..], name) {
      n := 0;
      assert name[0..] == name;
    } else {
      var m := StarRun(pattern, name[1..]);
      n := m + 1;
      assert name[1..][m..] == name[n..];
    }
  }

  // What a strict match accepts holds the parts in order.
  lemma {:induction false} StarMatchInOrder(pattern: string, name: string)
    requires StarMatch(pattern, name)
    ensures InOrder(Split(pattern, '*'), name)
    decreases |pattern|
  {
    hide StarMatch, Split, InOrder;
    var n := IndexOf(pattern, '*');
    LiteralRun(pattern, name, n);
    SplitParts(pattern);
    if n == |pattern| {
      assert pattern[..n] == pattern;
      PartInFront(pattern, [], name);
    } else {
      assert pattern[n..][0] == '*' && pattern[n..][1..] == pattern[n + 1..];
      var m := StarRun(pattern[n..], name[n..]);
      StarMatchInOrder(pattern[n + 1..], name[n..][m..]);
      InOrderLater(Split(pattern[n + 1..], '*'), name[n..], m);
      PartInFront(pattern[..n], Split(pattern[n + 1..], '*'), name);
    }
  }

  lemma PartInFront(part: string, rest: seq<string>, s: string)
    requires |part| <= |s| && s[..|part|] == part && (rest == [] || InOrder(rest, s[|part|..]))
    ensures InOrder([part] + rest, s)
    ensures rest == [] ==> InOrder([part], s)
  {
    var parts := [part] + rest;
    assert parts[1..] == rest && s[0..0 + |part|] == s[..|part|];
    assert parts[0] == part && OccursAt(s, parts[0], 0);
    assert InOrder(parts[1..], s[0 + |parts[0]|..]);
    assert rest == [] ==> parts == [part];
  }

  lemma {:induction false} StrictInOrder(glob: Glob, pattern: string, name: string)
    requires Globs(glob) && StarPattern(pattern)
    ensures Strict(glob, pattern, name).Some?
    ensures Strict(glob, pattern, name) == Some(true) ==> InOrder(Split(pattern, '*'), name)
    decreases |name|
  {
    var j := IndexOf(name, '/');
    if StarMatch(pattern, name) {
      StarMatchInOrder(pattern, name);
    } else if j + 1 < |name| {
      StrictInOrder(glob, pattern, name[j + 1..]);
      if Strict(glob, pattern, name) == Some(true) { InOrderLater(Split(pattern, '*'), name, j + 1); }
    }
  }

  // A pattern of literals and stars denies a path exactly when its literal
  // parts occur in the path in order: the search misses nothing and the strict
  // pass adds nothing.
  lemma StarPatternMatches(lower: string -> string, glob: Glob, pattern: string, path: string)
    requires Globs(glob) && StarPattern(lower(pattern))
    ensures Matches(lower, glob, pattern, path) <==> InOrder(Split(lower(pattern), '*'), lower(path))
  {
    hide StarPattern, Strict, Greedy, InOrder, Globs;
    StrictInOrder(glob, lower(pattern), lower(path));
    GreedyIsComplete(Split(lower(pattern), '*'), lower(path));
  }

  // ----- What the strict pass denies -----------------------------------------

  // The path itself and what is behind each of its slashes.
  predicate Tail(name: string, k: nat) {
    k == 0 || (k < |name| && name[k - 1] == '/')
  }

  // From a place on, the first tail that the glob accepts or is malformed for.
  ghost predicate Decides(glob: Glob, pattern: string, name: string, from: nat, k: nat) {
    && from <= k <= |name| && Tail(name, k) && glob(pattern, name[k..]) != Some(false)
    && forall m: nat :: from <= m < k && Tail(name, m) ==> glob(pattern, name[m..]) == Some(false)
  }

  lemma NextTail(name: string, i: nat)
    requires i <= |name|
    ensures var next := i + IndexOf(name[i..], '/') + 1;
            && (forall m: nat :: i < m < next && m <= |name| ==> !Tail(name, m))
            && (next < |name| ==> Tail(name, next))
            && (next == |name| ==> !Tail(name, next))
  {
    var j := IndexOf(name[i..], '/');
    forall m: nat | i < m < i + j + 1 && m <= |name|
      ensures !Tail(name, m)
    {
      if m < |name| { assert name[m - 1] == name[i..][..j][m - 1 - i]; }
    }
    if i + j + 1 < |name| { assert name[i + j] == name[i..][j]; }
  }

  // The strict pass says what the first tail says that the glob does not just reject.
  lemma {:induction false} StrictMeans(glob: Glob, pattern: string, name: string, i: nat)
    requires i <= |name| && Tail(name, i)
    ensures forall k: nat :: Decides(glob, pattern, name, i, k) ==> Strict(glob, pattern, name[i..]) == glob(pattern, name[k..])
    ensures (forall k: nat :: !Decides(glob, pattern, name, i, k)) ==> Strict(glob, pattern, name[i..]) == Some(false)
    decreases |name| - i
  {
    hide Tail;
    var next := i + IndexOf(name[i..], '/') + 1;
    NextTail(name, i);
    if glob(pattern, name[i..]) != Some(false) {
      assert Decides(glob, pattern, name, i, i);
    } else if next < |name| {
      StrictMeans(glob, pattern, name, next);
      assert name[i..][next - i..] == name[next..];
      forall k: nat
        ensures Decides(glob, pattern, name, i, k) <==> Decides(glob, pattern, name, next, k)
      {
      }
    }
  }

  // Text without anything that a glob interprets.
  predicate Literal(pattern: string) {
    '*' !in pattern && '?' !in pattern && '[' !in pattern && '\\' !in pattern
  }

  // The glob library takes such a pattern as it is.
  ghost predicate TakesLiterals(glob: Glob) {
    forall p, name :: Literal(p) ==> glob(p, name) == Some(p == name)
  }

  // The name ends in the text behind a slash.
  predicate EndsIn(name: string, p: string) {
    p != "" && |p| < |name| && name[|name| - |p|..] == p && name[|name| - |p| - 1] == '/'
  }

  lemma LiteralStrict(glob: Glob, p: string, name: string)
    requires TakesLiterals(glob) && Literal(p)
    ensures Strict(glob, p, name) == Some(name == p || EndsIn(name, p))
  {
    hide Strict, Literal;
    StrictMeans(glob, p, name, 0);
    assert name[0..] == name;
    if name == p {
      FirstTail(glob, p, name, 0);
    } else if EndsIn(name, p) {
      FirstTail(glob, p, name, |name| - |p|);
    } else {
      forall k: nat | k <= |name| && Tail(name, k)
        ensures name[k..] != p
      {
      }
      assert forall k: nat :: !Decides(glob, p, name, 0, k);
    }
  }

  // A literal pattern denies exactly the path it spells and every path that ends in it
  // behind a slash.
  lemma LiteralPatternMatches(lower: string -> string, glob: Glob, pattern: string, path: string)
    requires TakesLiterals(glob) && Literal(lower(pattern))
    ensures Matches(lower, glob, pattern, path) <==>
            lower(path) == lower(pattern) || EndsIn(lower(path), lower(pattern))
  {
    hide Strict, Greedy, EndsIn;
    LiteralStrict(glob, lower(pattern), lower(path));
  }

  // A tail that the glob does not reject is not before the one that decides.
  lemma {:induction false} FirstTail(glob: Glob, pattern: string, name: string, k: nat)
    requires k <= |name| && Tail(name, k) && glob(pattern, name[k..]) != Some(false)
    ensures exists m: nat :: Decides(glob, pattern, name, 0, m)
  {
    hide Tail;
    if m: nat :| m < k && Tail(name, m) && glob(pattern, name[m..]) != Some(false) {
      FirstTail(glob, pattern, name, m);
    } else {
      assert Decides(glob, pattern, name, 0, k);
    }
  }

  // A pattern that uses more than stars, or none, denies only what the glob accepts on
  // the path or behind one of its slashes, before any tail it is malformed for.
  lemma OtherPatternsAreStrict(lower: string -> string, glob: Glob, pattern: string, path: string)
    requires var p := lower(pattern); '*' !in p || '?' in p || '[' in p || '\\' in p
    ensures var p, name := lower(pattern), lower(path);
            Matches(lower, glob, pattern, path) <==>
            exists k: nat :: Decides(glob, p, name, 0, k) && glob(p, name[k..]) == Some(true)
  {
    hide Strict, Greedy, Tail;
    var p, name := lower(pattern), lower(path);
    assert name[0..] == name;
    StartIsTail(name);
    StrictMeans(glob, p, name, 0);
  }

  lemma StartIsTail(name: string)
    ensures Tail(name, 0)
  {
  }
}
