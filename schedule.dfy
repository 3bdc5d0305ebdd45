/** The pending path: the scheduled activations the tree generator emits and
    the per-frame pass (processTreePath) that applies and removes the ones
    whose time has come. */
module Schedule {
  import opened Wrappers
  import opened Lookup
  import opened Grid

  /** A scheduled activation: give cell `index` the colour `color` once the
      clock has passed `time`. */
  datatype Entry = Entry(index: int, color: Color, time: int)

  /** An entry is due once its time is strictly before the current time. */
  predicate Due(e: Entry, curTime: int) { e.time < curTime }

  /** The entries that are not yet due, in their original order. */
  function Pending(s: seq<Entry>, curTime: int): seq<Entry>
  {
    if s == [] then []
    else (if Due(s[0], curTime) then [] else [s[0]]) + Pending(s[1..], curTime)
  }

  /** Exactly the entries that are not yet due stay pending, and the list
      never grows. */
  lemma {:induction false} PendingMembers(s: seq<Entry>, curTime: int)
    ensures |Pending(s, curTime)| <= |s|
    ensures forall e :: e in Pending(s, curTime) <==> e in s && !Due(e, curTime)
  {
    if s != [] {
      PendingMembers(s[1..], curTime);
      assert s == [s[0]] + s[1..];
    }
  }

  /** Filtering keeps the order: the pending part of two lists one after the
      other is the pending part of the first followed by that of the second. */
  lemma {:induction false} PendingAppend(s: seq<Entry>, t: seq<Entry>, curTime: int)
    ensures Pending(s + t, curTime) == Pending(s, curTime) + Pending(t, curTime)
  {
    if s == [] {
      assert s + t == t;
    } else {
      assert (s + t)[0] == s[0] && (s + t)[1..] == s[1..] + t;
      PendingAppend(s[1..], t, curTime);
    }
  }

  /** Position of the first due entry naming cell k, or -1. */
  function FirstDue(s: seq<Entry>, curTime: int, k: int): int
  {
    FindIndex(s, (e: Entry) => Due(e, curTime) && e.index == k)
  }

  /** The colour cell k ends with when the due entries are applied from the
      last to the first: that of the earliest due entry naming it, if any. */
  function DueColor(s: seq<Entry>, curTime: int, k: int): (c: Option<Color>)
    ensures c == None <==> forall j :: 0 <= j < |s| ==> !(Due(s[j], curTime) && s[j].index == k)
    ensures c != None ==>
              exists j :: 0 <= j < |s| && Due(s[j], curTime) && s[j].index == k && s[j].color == c.value
                          && forall i :: 0 <= i < j ==> !(Due(s[i], curTime) && s[i].index == k)
  {
    var j := FirstDue(s, curTime, k);
    if j == -1 then None else Some(s[j].color)
  }

  /** One entry more at the front: it decides the colour if it is due and
      names the cell, otherwise the rest of the list does. */
  lemma DueColorCons(s: seq<Entry>, curTime: int, k: int)
    requires |s| > 0
    ensures DueColor(s, curTime, k) ==
              if Due(s[0], curTime) && s[0].index == k then Some(s[0].color)
              else DueColor(s[1..], curTime, k)
  {
    var p := (e: Entry) => Due(e, curTime) && e.index == k;
    if !p(s[0]) {
      var j := FindIndex(s[1..], p);
      if j != -1 {
        assert s[j + 1] == s[1..][j];
      }
    }
  }

  /** A second pass at the same time finds nothing due and changes nothing. */
  lemma ProcessIdempotent(s: seq<Entry>, curTime: int, k: int)
    ensures Pending(Pending(s, curTime), curTime) == Pending(s, curTime)
    ensures DueColor(Pending(s, curTime), curTime, k) == None
  {
    PendingMembers(s, curTime);
    PendingAllPending(Pending(s, curTime), curTime);
  }

  lemma {:induction false} PendingAllPending(s: seq<Entry>, curTime: int)
    requires forall e :: e in s ==> !Due(e, curTime)
    ensures Pending(s, curTime) == s
  {
    if s != [] {
      PendingAllPending(s[1..], curTime);
    }
  }

  /** The pending path the animation driver owns; processTreePath splices it
      in place. */
  class HexPath {
    var entries: seq<Entry>

    constructor (entries: seq<Entry>)
      ensures this.entries == entries
    {
      this.entries := entries;
    }
  }

  /** What cell k shows once the due entries of `s` are applied to it: the
      colour of the earliest due entry naming it and a cleared clean flag, or
      its colour and flag from before when no due entry names it. */
  function Shown(s: seq<Entry>, curTime: int, k: int, color: Color, clean: bool): (Color, bool)
  {
    match DueColor(s, curTime, k)
    case None => (color, clean)
    case Some(c) => (c, false)
  }

  /** Entry i decides what cell k shows if it is due and names k; otherwise
      the entries after it do. */
  lemma ShownStep(s: seq<Entry>, i: int, curTime: int, k: int, color: Color, clean: bool)
    requires 0 <= i < |s|
    ensures Shown(s[i..], curTime, k, color, clean) ==
              if Due(s[i], curTime) && s[i].index == k then (s[i].color, false)
              else Shown(s[i + 1..], curTime, k, color, clean)
  {
    assert s[i..][0] == s[i] && s[i..][1..] == s[i + 1..];
    DueColorCons(s[i..], curTime, k);
  }

  /** Splicing out entry i when it is due, or keeping it when it is not,
      extends the processed suffix by one entry. */
  lemma SpliceStep(s: seq<Entry>, i: int, curTime: int)
    requires 0 <= i < |s|
    ensures var cur := s[..i + 1] + Pending(s[i + 1..], curTime);
      && cur[i] == s[i]
      && (if Due(s[i], curTime) then cur[..i] + cur[i + 1..] == s[..i] + Pending(s[i..], curTime)
          else cur == s[..i] + Pending(s[i..], curTime))
  {
    var cur := s[..i + 1] + Pending(s[i + 1..], curTime);
    var rest := Pending(s[i + 1..], curTime);
    assert s[i..][0] == s[i] && s[i..][1..] == s[i + 1..];
    assert Pending(s[i..], curTime) == (if Due(s[i], curTime) then [] else [s[i]]) + rest;
    if Due(s[i], curTime) {
      assert cur[..i] == s[..i];
      assert cur[i + 1..] == rest;
    } else {
      assert s[..i + 1] == s[..i] + [s[i]];
    }
  }

  /** One step of processTreePath at position i: a due entry recolours its
      cell, marks it dirty and is spliced out of the list; an entry not yet
      due stays. */
  method ApplyAt(grid: seq<Cell>, hexPath: HexPath, i: int, ghost s: seq<Entry>, curTime: int)
    requires Distinct(grid) && 0 <= i < |s|
    requires Due(s[i], curTime) ==> 0 <= s[i].index < |grid|
    requires hexPath.entries == s[..i + 1] + Pending(s[i + 1..], curTime)
    modifies hexPath, grid
    ensures hexPath.entries == s[..i] + Pending(s[i..], curTime)
    ensures forall k :: 0 <= k < |grid| ==>
              && (grid[k].color, grid[k].clean) ==
                   (if Due(s[i], curTime) && s[i].index == k then (s[i].color, false)
                    else (old(grid[k].color), old(grid[k].clean)))
              && grid[k].index == old(grid[k].index) && grid[k].time == old(grid[k].time)
  {
    SpliceStep(s, i, curTime);
    var hexInfo := hexPath.entries[i];
    if hexInfo.time < curTime {
      var hex := grid[hexInfo.index];
      hex.clean := false;
      hex.color := hexInfo.color;
      hexPath.entries := hexPath.entries[..i] + hexPath.entries[i + 1..];
      forall k | 0 <= k < |grid| && k != hexInfo.index
        ensures grid[k] != hex
      {
      }
    }
  }

  /** processTreePath: walk the pending list from its end to its start; each
      due entry recolours its cell, marks it dirty and is spliced out. */
  method ProcessTreePath(grid: seq<Cell>, hexPath: HexPath, curTime: int)
    requires Distinct(grid)
    requires forall e :: e in hexPath.entries && Due(e, curTime) ==> 0 <= e.index < |grid|
    modifies hexPath, grid
    ensures hexPath.entries == Pending(old(hexPath.entries), curTime)
    ensures forall k :: 0 <= k < |grid| ==>
              (grid[k].color, grid[k].clean) == Shown(old(hexPath.entries), curTime, k, old(grid[k].color), old(grid[k].clean))
    ensures forall k :: 0 <= k < |grid| ==> grid[k].index == old(grid[k].index) && grid[k].time == old(grid[k].time)
  {
    ghost var s := hexPath.entries;
    var i := |hexPath.entries| - 1;
    ghost var done := [];
    while i >= 0
      invariant -1 <= i < |s|
      invariant done == s[i + 1..]
      invariant hexPath.entries == s[..i + 1] + Pending(done, curTime)
      invariant forall k :: 0 <= k < |grid| ==>
                  && (grid[k].color, grid[k].clean) == Shown(done, curTime, k, old(grid[k].color), old(grid[k].clean))
                  && grid[k].index == old(grid[k].index) && grid[k].time == old(grid[k].time)
    {
      assert s[i] in s;
      label Before:
      ApplyAt(grid, hexPath, i, s, curTime);
      forall k | 0 <= k < |grid|
        ensures (grid[k].color, grid[k].clean) == Shown(s[i..], curTime, k, old(grid[k].color), old(grid[k].clean))
      {
        ShownStep(s, i, curTime, k, old(grid[k].color), old(grid[k].clean));
      }
      done := s[i..];
      i := i - 1;
    }
    assert done == s;
  }
}
