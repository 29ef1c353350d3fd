/** The undo history: a list of at most 20 image snapshots; a push at
    capacity drops the oldest, and undo takes the newest. */
module History {
  import opened Pixels

  /** Maximum number of undo steps kept. */
  const MaxHistory: nat := 20

  /** The list after saving `snapshot`: at capacity, the entry at index 0
      (the oldest) is removed before the snapshot is appended. */
  function Push(history: seq<Image>, snapshot: Image): (r: seq<Image>)
    ensures |history| <= MaxHistory ==> |r| == Min(|history| + 1, MaxHistory)
    ensures 0 < |r| <= |history| + 1 && r[|r| - 1] == snapshot
    ensures r[..|r| - 1] == history[|history| + 1 - |r|..]
  {
    (if |history| >= MaxHistory then history[1..] else history) + [snapshot]
  }

  /** Undo: the newest snapshot and the list without it; nothing on an empty
      list. */
  function Pop(history: seq<Image>): (r: (Option<Image>, seq<Image>))
    ensures history == [] ==> r == (None, [])
    ensures history != [] ==> r.0 == Some(history[|history| - 1]) && r.1 + [history[|history| - 1]] == history
  {
    if history == [] then (None, []) else (Some(history[|history| - 1]), history[..|history| - 1])
  }

  /** Undo right after a push hands back the pushed snapshot; the list is as
      before when it had room, and has lost its oldest entry when it was full. */
  lemma PushThenPop(history: seq<Image>, snapshot: Image)
    requires |history| <= MaxHistory
    ensures Pop(Push(history, snapshot)) == (Some(snapshot), if |history| < MaxHistory then history else history[1..])
  {
  }

  /** The list after a series of saves, oldest first. */
  function PushAll(history: seq<Image>, snapshots: seq<Image>): seq<Image>
    decreases snapshots
  {
    if snapshots == [] then history
    else PushAll(Push(history, snapshots[0]), snapshots[1..])
  }

  /** However many snapshots are saved, the list holds exactly the newest
      (at most) 20 of all of them, oldest first: the 21st save evicts the
      first, never a recent one. */
  lemma {:induction false} PushAllKeepsNewest(history: seq<Image>, snapshots: seq<Image>)
    requires |history| <= MaxHistory
    decreases snapshots
    ensures var all := history + snapshots;
      PushAll(history, snapshots) == all[|all| - Min(|all|, MaxHistory)..]
  {
    if snapshots != [] {
      var next := Push(history, snapshots[0]);
      PushAllKeepsNewest(next, snapshots[1..]);
      var all := history + snapshots;
      var k := |history| + 1 - |next|;
      PushedSuffix(history, snapshots, next, k);
      var m := Min(|all|, MaxHistory);
      assert Min(|all| - k, MaxHistory) == m;
      SuffixOfSuffix(all, k, m);
    }
  }

  /** The list after one save, followed by the remaining snapshots, is all
      of them with the `k` dropped entries removed. */
  lemma PushedSuffix(history: seq<Image>, snapshots: seq<Image>, next: seq<Image>, k: int)
    requires snapshots != [] && 0 <= k <= |history| && next == history[k..] + [snapshots[0]]
    ensures next + snapshots[1..] == (history + snapshots)[k..]
  {
    assert [snapshots[0]] + snapshots[1..] == snapshots;
  }

  lemma SuffixOfSuffix(a: seq<Image>, k: int, m: int)
    requires 0 <= k <= |a| && 0 <= m <= |a| - k
    ensures a[k..][|a| - k - m..] == a[|a| - m..]
  {
  }
}
