/**
 * The undo/redo history of the editor: a bounded list of full-buffer
 * snapshots and a cursor `index` naming the snapshot the buffer shows.
 *
 * An empty history has cursor −1.  Committing cuts off everything after
 * the cursor, appends the new snapshot, drops the oldest entry when more
 * than Capacity remain, and moves the cursor to the end.  Undo and redo
 * move the cursor one place when there is somewhere to go.
 */
module History {

  const Capacity: nat := 20

  /** Empty with cursor −1, or at most Capacity entries with the cursor on one of them. */
  predicate WellShaped<T>(h: seq<T>, index: int)
  {
    (h == [] && index == -1) || (0 <= index < |h| <= Capacity)
  }

  /** The first `n` entries, with `n` clamped into [0, |h|] as Array.prototype.slice(0, n) does. */
  function SlicePrefix<T>(h: seq<T>, n: int): (r: seq<T>)
    ensures n <= 0 ==> r == []
    ensures n >= |h| ==> r == h
    ensures 0 <= n <= |h| ==> r == h[..n]
    ensures forall x | x in r :: x in h
  {
    if n <= 0 then [] else if n >= |h| then h else h[..n]
  }

  /** The last `n` entries of `s` (all of them when there are fewer). */
  function Last<T>(s: seq<T>, n: nat): (r: seq<T>)
    ensures |r| == if |s| < n then |s| else n
    ensures r == s[|s| - |r|..]
  {
    if |s| <= n then s else s[|s| - n..]
  }

  /** A history together with its cursor. */
  datatype State<T> = State(entries: seq<T>, index: int)

  /**
   * Commit snapshot `s`: keep the entries up to the cursor, append `s`, and
   * drop the oldest entry if that leaves more than Capacity.
   */
  function Commit<T>(st: State<T>, s: T): (r: State<T>)
    ensures |r.entries| >= 1 && r.index == |r.entries| - 1 && r.entries[r.index] == s
  {
    var kept := SlicePrefix(st.entries, st.index + 1) + [s];
    if |kept| > Capacity then State(kept[1..], |kept| - 2)
    else State(kept, |kept| - 1)
  }

  /** Undo moves the cursor back one place if it is past the first entry. */
  function Undo<T>(st: State<T>): (r: State<T>)
    ensures r.entries == st.entries
    ensures st.index > 0 ==> r.index == st.index - 1
    ensures st.index <= 0 ==> r == st
    ensures WellShaped(st.entries, st.index) ==> WellShaped(r.entries, r.index)
  {
    if st.index > 0 then st.(index := st.index - 1) else st
  }

  /** Redo moves the cursor forward one place if it is before the last entry. */
  function Redo<T>(st: State<T>): (r: State<T>)
    ensures r.entries == st.entries
    ensures st.index < |st.entries| - 1 ==> r.index == st.index + 1
    ensures st.index >= |st.entries| - 1 ==> r == st
    ensures WellShaped(st.entries, st.index) ==> WellShaped(r.entries, r.index)
  {
    if st.index < |st.entries| - 1 then st.(index := st.index + 1) else st
  }

  /** Whether Undo would move the cursor (what enables the undo button). */
  predicate CanUndo<T>(st: State<T>)
    ensures CanUndo(st) <==> Undo(st) != st
  {
    st.index > 0
  }

  /** Whether Redo would move the cursor (what enables the redo button). */
  predicate CanRedo<T>(st: State<T>)
    ensures CanRedo(st) <==> Redo(st) != st
  {
    st.index < |st.entries| - 1
  }

  /** The history as it stands after seeding: one snapshot, cursor on it. */
  function Seed<T>(s: T): (r: State<T>)
    ensures |r.entries| == 1 && r.index == 0 && r.entries[0] == s
    ensures WellShaped(r.entries, r.index) && !CanUndo(r) && !CanRedo(r)
  {
    State([s], 0)
  }

  /** Commit each snapshot of `ss` in turn. */
  function CommitAll<T>(st: State<T>, ss: seq<T>): (r: State<T>)
    decreases |ss|
  {
    if ss == [] then st else Commit(CommitAll(st, ss[..|ss| - 1]), ss[|ss| - 1])
  }

  // ----- properties -----

  /**
   * A commit on a well-shaped history keeps it well-shaped and holds the
   * last Capacity of: the entries up to the cursor, then the snapshot.
   */
  lemma CommitShape<T>(st: State<T>, s: T)
    requires WellShaped(st.entries, st.index)
    ensures var r := Commit(st, s);
      && WellShaped(r.entries, r.index)
      && r.entries == Last(st.entries[..st.index + 1] + [s], Capacity)
  {
  }

  /** A commit adds no entry but the snapshot. */
  lemma CommitAddsOnlySnapshot<T>(st: State<T>, s: T)
    ensures forall x | x in Commit(st, s).entries :: x in st.entries || x == s
  {
  }

  /** After a commit there is nothing to redo. */
  lemma CommitClearsRedo<T>(st: State<T>, s: T)
    ensures !CanRedo(Commit(st, s))
  {
  }

  /**
   * Undo straight after a commit returns to the snapshot that was current
   * before it, even when the commit evicted the oldest entry.
   */
  lemma {:induction false} UndoAfterCommit<T>(st: State<T>, s: T)
    requires WellShaped(st.entries, st.index) && st.index >= 0
    ensures var r := Undo(Commit(st, s));
      r.entries[r.index] == st.entries[st.index]
  {
    var c := Commit(st, s);
    var full := st.entries[..st.index + 1] + [s];
    assert |full| >= 2;
    assert c.entries[c.index - 1] == full[|full| - 2];
  }

  /** Redo undoes an undo, and undo undoes a redo. */
  lemma UndoRedoInverse<T>(st: State<T>)
    requires WellShaped(st.entries, st.index)
    ensures CanUndo(st) ==> Redo(Undo(st)) == st
    ensures CanRedo(st) && st.index >= 0 ==> Undo(Redo(st)) == st
  {
  }

  /** Taking the last n of the last m entries is taking the last n, for n ≤ m. */
  lemma {:induction false} LastOfLast<T>(s: seq<T>, x: T, n: nat)
    requires n >= 1
    ensures Last(Last(s, n) + [x], n) == Last(s + [x], n)
  {
    var l := Last(s, n);
    var a, b := Last(l + [x], n), Last(s + [x], n);
    assert |a| == |b|;
    forall i | 0 <= i < |a|
      ensures a[i] == b[i]
    {
      if i < |a| - 1 {
        assert a[i] == (l + [x])[|l| + 1 - |a| + i] == l[|l| + 1 - |a| + i];
        assert l[|l| + 1 - |a| + i] == s[|s| - |l| + |l| + 1 - |a| + i];
      }
    }
  }

  /** The state reached by committing exactly the snapshots `ss` from an empty history. */
  ghost predicate HoldsLatest<T>(st: State<T>, ss: seq<T>)
  {
    && WellShaped(st.entries, st.index)
    && st.entries == Last(ss, Capacity)
    && st.index == |st.entries| - 1
  }

  /** One more commit keeps the latest Capacity snapshots. */
  lemma {:induction false} CommitKeepsLatest<T>(st: State<T>, ss: seq<T>, x: T)
    requires HoldsLatest(st, ss)
    ensures HoldsLatest(Commit(st, x), ss + [x])
  {
    assert st.entries[..st.index + 1] == st.entries;
    var r := Commit(st, x);
    assert r.entries == Last(Last(ss, Capacity) + [x], Capacity);
    LastOfLast(ss, x, Capacity);
  }

  /**
   * Committing a run of snapshots from an empty history keeps exactly the
   * last Capacity of them, with the cursor on the newest.
   */
  lemma {:induction false} CommitAllKeepsLatest<T>(ss: seq<T>)
    ensures HoldsLatest(CommitAll(State([], -1), ss), ss)
    decreases |ss|
  {
    if ss != [] {
      var init, x := ss[..|ss| - 1], ss[|ss| - 1];
      CommitAllKeepsLatest(init);
      CommitKeepsLatest(CommitAll(State([], -1), init), init, x);
      assert init + [x] == ss;
    }
  }

  /** Twenty-one commits from empty keep the second through the twenty-first. */
  lemma TwentyOneCommitsDropTheFirst<T>(ss: seq<T>)
    requires |ss| == Capacity + 1
    ensures var r := CommitAll(State([], -1), ss);
      r.entries == ss[1..] && r.index == Capacity - 1
  {
    CommitAllKeepsLatest(ss);
  }
}
