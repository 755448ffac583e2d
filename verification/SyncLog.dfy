// The append-only local event log, as hosted sync pages through it.
module SyncLog {

  // A stored event: its append sequence, its identity, and its raw envelope.
  datatype Row = Row(seqNo: int, id: string, raw: string)

  predicate ValidLog(log: seq<Row>) {
    && (forall i, j :: 0 <= i < j < |log| ==> log[i].seqNo < log[j].seqNo)
    && (forall i :: 0 <= i < |log| ==> 0 < log[i].seqNo)
    && (forall i, j :: 0 <= i < j < |log| ==> log[i].id != log[j].id)
  }

  function MaxSeq(log: seq<Row>): int {
    if log == [] then 0 else log[|log| - 1].seqNo
  }

  // How many rows have a sequence of at most x.
  function Upto(log: seq<Row>, x: int): (n: nat)
    ensures n <= |log|
  {
    if log == [] then 0
    else if log[|log| - 1].seqNo <= x then |log|
    else Upto(log[..|log| - 1], x)
  }

  lemma {:induction false} UptoSplits(log: seq<Row>, x: int)
    requires ValidLog(log)
    ensures forall i :: 0 <= i < |log| ==> (log[i].seqNo <= x <==> i < Upto(log, x))
  {
    if log != [] && log[|log| - 1].seqNo > x {
      var init := log[..|log| - 1];
      assert forall i :: 0 <= i < |init| ==> init[i] == log[i];
      UptoSplits(init, x);
    }
  }

  lemma UptoUnique(log: seq<Row>, x: int, n: nat)
    requires ValidLog(log) && n <= |log|
    requires n > 0 ==> log[n - 1].seqNo <= x
    requires n < |log| ==> log[n].seqNo > x
    ensures Upto(log, x) == n
  {
    UptoSplits(log, x);
  }

  lemma {:induction false} UptoMonotone(log: seq<Row>, x: int, y: int)
    requires x <= y
    ensures Upto(log, x) <= Upto(log, y)
  {
    if log != [] {
      UptoMonotone(log[..|log| - 1], x, y);
    }
  }

  // The first n rows end at the sequence of row n - 1.
  lemma UptoRow(log: seq<Row>, n: nat)
    requires ValidLog(log) && 0 < n <= |log|
    ensures Upto(log, log[n - 1].seqNo) == n
  {
    UptoUnique(log, log[n - 1].seqNo, n);
  }

  lemma UptoMax(log: seq<Row>)
    requires ValidLog(log)
    ensures Upto(log, MaxSeq(log)) == |log| && Upto(log, 0) == 0
    ensures log != [] ==> MaxSeq(log) > 0
  {
    UptoUnique(log, MaxSeq(log), |log|);
    UptoUnique(log, 0, 0);
  }

  // Events captured later never enter a range that was already complete.
  lemma UptoGrows(log: seq<Row>, more: seq<Row>, x: int)
    requires ValidLog(log + more) && x <= MaxSeq(log)
    ensures ValidLog(log) && Upto(log + more, x) == Upto(log, x)
  {
    var all := log + more;
    assert forall i :: 0 <= i < |log| ==> all[i] == log[i];
    UptoSplits(log, x);
    UptoUnique(all, x, Upto(log, x));
  }

  // The rows after one sequence, through another.
  function RowsIn(log: seq<Row>, after: int, through: int): (rows: seq<Row>)
  {
    var lo, hi := Upto(log, after), Upto(log, through);
    if lo <= hi then log[lo..hi] else []
  }

  lemma RowsInNone(log: seq<Row>, x: int)
    ensures RowsIn(log, x, x) == []
  {
  }

  lemma RowsInConcat(log: seq<Row>, a: int, b: int, c: int)
    requires ValidLog(log) && a <= b <= c
    ensures RowsIn(log, a, c) == RowsIn(log, a, b) + RowsIn(log, b, c)
  {
    UptoMonotone(log, a, b);
    UptoMonotone(log, b, c);
  }

  // The store's paging query: at most `limit` rows, in append order.
  function Page(log: seq<Row>, after: int, through: int, limit: nat): seq<Row> {
    var rows := RowsIn(log, after, through);
    if |rows| <= limit then rows else rows[..limit]
  }

  // A page prefix is the whole range up to its last row.
  lemma PagePrefix(log: seq<Row>, after: int, through: int, limit: nat, n: nat)
    requires ValidLog(log) && 0 < n <= |Page(log, after, through, limit)|
    ensures var page := Page(log, after, through, limit);
            && page[..n] == RowsIn(log, after, page[n - 1].seqNo)
            && after < page[n - 1].seqNo <= through
  {
    var page := Page(log, after, through, limit);
    var lo := Upto(log, after);
    UptoSplits(log, after);
    UptoSplits(log, through);
    assert page[n - 1] == log[lo + n - 1];
    UptoRow(log, lo + n);
    assert page[..n] == log[lo..lo + n];
  }

  lemma PageEmpty(log: seq<Row>, after: int, limit: nat)
    requires ValidLog(log) && 0 <= after < MaxSeq(log) && limit > 0
    ensures Page(log, after, MaxSeq(log), limit) != []
  {
    UptoMax(log);
    UptoSplits(log, after);
    assert log[|log| - 1].seqNo > after;
  }

  function Ids(rows: seq<Row>): (ids: seq<string>)
    ensures |ids| == |rows| && forall i :: 0 <= i < |rows| ==> ids[i] == rows[i].id
  {
    seq(|rows|, i requires 0 <= i < |rows| => rows[i].id)
  }
}
