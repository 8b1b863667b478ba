/** The undo/redo discipline of the sketch pad as values: the display list
    and the redo stack, and what each button or a new stroke does to them.
    Entries are opaque here (the app stores stroke references in them);
    undo and redo move entries by stack position only. */
module History {

  /** The two lists: `displayList` in drawing order, and `redoStack` with the
      most recently undone entry last (its top). */
  datatype History<T> = History(displayList: seq<T>, redoStack: seq<T>)

  /** The empty history the app starts with. */
  function Empty<T>(): History<T>
  {
    History([], [])
  }

  /** `s` back to front. */
  function Reverse<T>(s: seq<T>): (r: seq<T>)
    ensures |r| == |s|
  {
    if s == [] then [] else Reverse(s[1..]) + [s[0]]
  }

  /** Every entry the user can still reach by redoing, in drawing order:
      the display list followed by the redo stack read from its top. */
  function Timeline<T>(h: History<T>): seq<T>
  {
    h.displayList + Reverse(h.redoStack)
  }

  /** `c`, if it occurs in `t` at all, occurs exactly once, as its last
      entry. */
  predicate NewestOnly<T(==)>(t: seq<T>, c: T)
  {
    c in t ==> t[|t| - 1] == c && c !in t[..|t| - 1]
  }

  /** No entry occurs twice in `t`. */
  predicate Distinct<T(==)>(t: seq<T>)
  {
    forall i, j :: 0 <= i < j < |t| ==> t[i] != t[j]
  }

  /** The history invariant: every entry sits in one place only, so no entry
      is twice in the display list, twice on the redo stack, or in both. */
  predicate Unique<T(==)>(h: History<T>)
  {
    Distinct(Timeline(h))
  }

  /** A new stroke: appended to the display list, and the redo history is
      dropped. */
  function Push<T>(h: History<T>, c: T): (r: History<T>)
    ensures r.redoStack == []
    ensures |r.displayList| == |h.displayList| + 1
    ensures r.displayList[..|h.displayList|] == h.displayList
    ensures r.displayList[|h.displayList|] == c
  {
    History(h.displayList + [c], [])
  }

  /** Undo: nothing on an empty display list; otherwise its last entry moves
      to the top of the redo stack. */
  function Undo<T>(h: History<T>): (r: History<T>)
    ensures h.displayList == [] ==> r == h
    ensures h.displayList != [] ==>
              && r.displayList == h.displayList[..|h.displayList| - 1]
              && |r.redoStack| == |h.redoStack| + 1
              && r.redoStack[..|h.redoStack|] == h.redoStack
              && r.redoStack[|h.redoStack|] == h.displayList[|h.displayList| - 1]
  {
    if h.displayList == [] then h
    else
      var n := |h.displayList|;
      History(h.displayList[..n - 1], h.redoStack + [h.displayList[n - 1]])
  }

  /** Redo: nothing on an empty redo stack; otherwise its top moves back to
      the end of the display list. */
  function Redo<T>(h: History<T>): (r: History<T>)
    ensures h.redoStack == [] ==> r == h
    ensures h.redoStack != [] ==>
              && r.redoStack == h.redoStack[..|h.redoStack| - 1]
              && |r.displayList| == |h.displayList| + 1
              && r.displayList[..|h.displayList|] == h.displayList
              && r.displayList[|h.displayList|] == h.redoStack[|h.redoStack| - 1]
  {
    if h.redoStack == [] then h
    else
      var n := |h.redoStack|;
      History(h.displayList + [h.redoStack[n - 1]], h.redoStack[..n - 1])
  }

  /** Clear: both lists become empty, whatever they held. */
  function Clear<T>(h: History<T>): (r: History<T>)
    ensures r.displayList == [] && r.redoStack == []
  {
    Empty()
  }

  /** `k` presses of Undo. */
  function UndoTimes<T>(h: History<T>, k: nat): History<T>
  {
    if k == 0 then h else Undo(UndoTimes(h, k - 1))
  }

  /** `k` presses of Redo. */
  function RedoTimes<T>(h: History<T>, k: nat): History<T>
  {
    if k == 0 then h else Redo(RedoTimes(h, k - 1))
  }

  lemma {:induction false} ReverseSnoc<T>(s: seq<T>, x: T)
    ensures Reverse(s + [x]) == [x] + Reverse(s)
  {
    if s == [] {
      assert [x][1..] == [];
    } else {
      assert (s + [x])[1..] == s[1..] + [x];
      ReverseSnoc(s[1..], x);
    }
  }

  /** Undo moves an entry and never creates or loses one: the multiset of
      all entries and the combined length are conserved, and so is the
      order in which a user can walk back and forth through them. */
  lemma {:induction false} UndoConserves<T>(h: History<T>)
    ensures multiset(Undo(h).displayList + Undo(h).redoStack)
         == multiset(h.displayList + h.redoStack)
    ensures |Undo(h).displayList| + |Undo(h).redoStack| == |h.displayList| + |h.redoStack|
    ensures Timeline(Undo(h)) == Timeline(h)
  {
    if h.displayList != [] {
      var n := |h.displayList|;
      var last := h.displayList[n - 1];
      var rest := h.displayList[..n - 1];
      assert h.displayList == rest + [last];
      assert Undo(h) == History(rest, h.redoStack + [last]);
      ReverseSnoc(h.redoStack, last);
      assert Timeline(Undo(h)) == rest + ([last] + Reverse(h.redoStack));
      assert multiset(h.displayList + h.redoStack)
          == multiset(rest) + multiset([last]) + multiset(h.redoStack);
      assert multiset(rest + (h.redoStack + [last]))
          == multiset(rest) + multiset(h.redoStack) + multiset([last]);
    }
  }

  /** Redo, likewise, conserves the entries, their number and the timeline. */
  lemma {:induction false} RedoConserves<T>(h: History<T>)
    ensures multiset(Redo(h).displayList + Redo(h).redoStack)
         == multiset(h.displayList + h.redoStack)
    ensures |Redo(h).displayList| + |Redo(h).redoStack| == |h.displayList| + |h.redoStack|
    ensures Timeline(Redo(h)) == Timeline(h)
  {
    if h.redoStack != [] {
      var n := |h.redoStack|;
      var top := h.redoStack[n - 1];
      var rest := h.redoStack[..n - 1];
      assert h.redoStack == rest + [top];
      assert Redo(h) == History(h.displayList + [top], rest);
      ReverseSnoc(rest, top);
      assert Timeline(h) == h.displayList + ([top] + Reverse(rest));
      assert multiset(h.displayList + h.redoStack)
          == multiset(h.displayList) + multiset(rest) + multiset([top]);
      assert multiset((h.displayList + [top]) + rest)
          == multiset(h.displayList) + multiset([top]) + multiset(rest);
    }
  }

  /** Undo followed by Redo restores both lists exactly, and so does Redo
      followed by Undo. */
  lemma UndoRedoRoundTrip<T>(h: History<T>)
    ensures h.displayList != [] ==> Redo(Undo(h)) == h
    ensures h.redoStack != [] ==> Undo(Redo(h)) == h
  {
  }

  /** After k undos (k at most the length of the display list) the display
      list has lost its last k entries and the redo stack holds them on top
      of its old contents, the most recently drawn at the bottom. */
  lemma {:induction false} UndoTimesShape<T>(h: History<T>, k: nat)
    requires k <= |h.displayList|
    ensures UndoTimes(h, k)
         == History(h.displayList[..|h.displayList| - k],
                    h.redoStack + Reverse(h.displayList[|h.displayList| - k..]))
  {
    var n := |h.displayList|;
    if k > 0 {
      UndoTimesShape(h, k - 1);
      var tail := h.displayList[n - k..];
      assert tail == [h.displayList[n - k]] + h.displayList[n - k + 1..];
      assert Reverse(tail) == Reverse(h.displayList[n - k + 1..]) + [h.displayList[n - k]];
    } else {
      assert h.displayList[n..] == [];
    }
  }

  /** Undo pressed k times and then Redo pressed k times gives back the
      history it started from, for every k up to the display list's length. */
  lemma {:induction false} UndoRedoTimesRoundTrip<T>(h: History<T>, k: nat)
    requires k <= |h.displayList|
    ensures RedoTimes(UndoTimes(h, k), k) == h
  {
    if k > 0 {
      // Peel off the last undo and the first redo.
      var g := UndoTimes(h, k - 1);
      UndoTimesShape(h, k - 1);
      assert g.displayList != [];
      UndoRedoRoundTrip(g);
      RedoTimesFirst(Undo(g), k - 1);
      UndoRedoTimesRoundTrip(h, k - 1);
    }
  }

  /** k + 1 redos are one redo followed by k more. */
  lemma {:induction false} RedoTimesFirst<T>(h: History<T>, k: nat)
    ensures RedoTimes(h, k + 1) == RedoTimes(Redo(h), k)
  {
    if k > 0 {
      RedoTimesFirst(h, k - 1);
    }
  }

  /** Starting a new stroke invalidates redo: whatever was undone before,
      Redo right after it changes nothing, and Undo then returns only the new
      entry. */
  lemma PushInvalidatesRedo<T>(h: History<T>, c: T)
    ensures Push(h, c).redoStack == []
    ensures Redo(Push(h, c)) == Push(h, c)
    ensures Undo(Push(h, c)) == History(h.displayList, [c])
  {
  }

  /** Clear followed by Undo, or by Redo, is the same as Clear alone. */
  lemma ClearThenUndo<T>(h: History<T>)
    ensures Undo(Clear(h)) == Clear(h) == Empty()
    ensures Redo(Clear(h)) == Clear(h)
  {
  }

  /** A new entry becomes the newest entry of the timeline and, when it is
      not in the display list already, its only occurrence (the redo stack,
      which might hold it, is dropped). */
  lemma PushNewest<T>(h: History<T>, c: T)
    requires c !in h.displayList
    ensures Timeline(Push(h, c)) == h.displayList + [c]
    ensures NewestOnly(Timeline(Push(h, c)), c)
  {
  }

  /** When an entry occurring only as the newest entry of the timeline sits
      in the display list, nothing is waiting to be redone and that entry is
      the display list's last one, appearing nowhere earlier in it. */
  lemma NewestInDisplayList<T>(h: History<T>, c: T)
    requires NewestOnly(Timeline(h), c) && c in h.displayList
    ensures h.redoStack == []
    ensures h.displayList[|h.displayList| - 1] == c
    ensures c !in h.displayList[..|h.displayList| - 1]
  {
    var t := Timeline(h);
    var n := |h.displayList|;
    var i :| 0 <= i < n && h.displayList[i] == c;
    assert t[i] == c;
    assert i == |t| - 1;
    assert t[..|t| - 1] == h.displayList[..n - 1];
  }

  /** In a history that keeps the invariant, the two lists share no entry. */
  lemma UniqueSeparates<T>(h: History<T>, c: T)
    requires Unique(h) && c in h.displayList
    ensures c !in h.redoStack
  {
    var t := Timeline(h);
    var n := |h.displayList|;
    var i :| 0 <= i < n && h.displayList[i] == c;
    forall j | 0 <= j < |h.redoStack|
      ensures h.redoStack[j] != c
    {
      ReverseIndex(h.redoStack, j);
      assert t[n + |h.redoStack| - 1 - j] == h.redoStack[j];
      assert t[i] == c;
    }
  }

  /** Entry `j` of `s` is entry `|s| - 1 - j` of its reverse. */
  lemma {:induction false} ReverseIndex<T>(s: seq<T>, j: int)
    requires 0 <= j < |s|
    ensures Reverse(s)[|s| - 1 - j] == s[j]
  {
    if j > 0 {
      ReverseIndex(s[1..], j - 1);
    }
  }

  /** A new entry that is not already in the display list keeps the
      invariant: the redo stack, the only other place it could be, is
      dropped. */
  lemma UniqueAfterPush<T>(h: History<T>, c: T)
    requires Unique(h) && c !in h.displayList
    ensures Unique(Push(h, c))
  {
    var t := Timeline(h);
    var n := |h.displayList|;
    assert Timeline(Push(h, c)) == h.displayList + [c];
    forall i, j | 0 <= i < j < n
      ensures h.displayList[i] != h.displayList[j]
    {
      assert t[i] == h.displayList[i] && t[j] == h.displayList[j];
    }
  }

  /** Undo and redo keep the invariant, since they keep the timeline. */
  lemma UniqueAfterUndo<T>(h: History<T>)
    requires Unique(h)
    ensures Unique(Undo(h)) && Unique(Redo(h))
  {
    UndoConserves(h);
    RedoConserves(h);
  }

  /** Clear keeps the invariant: nothing is left to occur twice. */
  lemma UniqueAfterClear<T>(h: History<T>)
    ensures Unique(Clear(h))
  {
  }
}
