/**
 * The recency window of flash.rb (class `LRU`): the names shown most
 * recently, newest first, never more than `size` of them and never one twice.
 * The selection skips every name the window holds.
 */
module Recency {
  import opened Common

  /**
   * The window `s` after `push(x)` with room for `size` names: any earlier
   * copy of `x` is deleted, `x` goes to the front, and the window is cut
   * back to `size` entries, losing its oldest ones.
   */
  function Pushed(s: seq<Name>, x: Name, size: nat): (r: seq<Name>)
    ensures |r| <= size
    ensures size > 0 ==> |r| > 0 && r[0] == x
  {
    Truncate([x] + Exclude(s, {x}), size)
  }

  /**
   * `push` as the source is written: it calls `delete_value`, which Ruby
   * arrays do not have, so pushing a name the window already holds raises
   * NoMethodError (None here) before anything changes.
   */
  function PushAsWritten(s: seq<Name>, x: Name, size: nat): (r: Option<seq<Name>>)
    ensures r.None? <==> x in s
    ensures r.Some? ==> |r.value| <= size && (size > 0 ==> |r.value| > 0 && r.value[0] == x)
  {
    if x in s then None else Some(Truncate([x] + s, size))
  }

  /** The window after pushing `recent` into `s`, `recent` listed newest first. */
  function PushAll(s: seq<Name>, recent: seq<Name>, size: nat): seq<Name>
    decreases |recent|
  {
    if recent == [] then s else Pushed(PushAll(s, recent[1..], size), recent[0], size)
  }

  /** The window's invariant: bounded by its size and free of duplicates. */
  ghost predicate WindowOk(s: seq<Name>, size: nat)
  {
    |s| <= size && Distinct(s)
  }

  /**
   * A push keeps the window bounded and duplicate-free (a name already held is
   * moved, not copied), and the pushed name is at the front.
   */
  lemma PushKeepsWindow(s: seq<Name>, x: Name, size: nat)
    requires WindowOk(s, size)
    ensures WindowOk(Pushed(s, x, size), size)
    ensures size > 0 ==> Pushed(s, x, size)[0] == x
  {
    var e := Exclude(s, {x});
    ExcludeDistinct(s, {x});
    DistinctCons(x, e);
    DistinctPrefix([x] + e, |Pushed(s, x, size)|);
  }

  /**
   * What the window holds after a push: the pushed name (when the window has
   * room at all) and every name it held before, except that the oldest entry
   * is evicted when the window was full and the pushed name was new.
   */
  lemma PushMembership(s: seq<Name>, x: Name, size: nat, y: Name)
    requires WindowOk(s, size)
    ensures y in Pushed(s, x, size) <==>
              (y == x && size > 0) || (y in s && !(|s| == size && x !in s && y == s[size - 1]))
  {
    var e := Exclude(s, {x});
    if size == 0 {
      assert Pushed(s, x, size) == [] && s == [];
    } else if x in s {
      ExcludeShrinks(s, {x}, x);
      assert Pushed(s, x, size) == [x] + e;
    } else {
      ExcludeAbsent(s, {x});
      if |s| == size {
        PushEvictsOldest(s, x, size, y);
      } else {
        assert Pushed(s, x, size) == [x] + s;
      }
    }
  }

  /** PushMembership when the window is full and the pushed name is new. */
  lemma PushEvictsOldest(s: seq<Name>, x: Name, size: nat, y: Name)
    requires 0 < size == |s| && x !in s && Distinct(s)
    ensures y in Pushed(s, x, size) <==> y == x || (y in s && y != s[size - 1])
  {
    ExcludeAbsent(s, {x});
    assert Pushed(s, x, size) == [x] + s[..size - 1];
    if y in s && y != s[size - 1] {
      var i :| 0 <= i < |s| && s[i] == y;
      assert i < size - 1 && s[..size - 1][i] == y;
    }
    if y in s[..size - 1] {
      var i :| 0 <= i < size - 1 && s[..size - 1][i] == y;
      assert s[i] == y && s[i] != s[size - 1];
    }
  }

  /**
   * The names that stay in the window after a push keep their relative order:
   * with the pushed name taken out, the new window is a subsequence of the old.
   */
  lemma PushKeepsOrder(s: seq<Name>, x: Name, size: nat)
    ensures Subsequence(Exclude(Pushed(s, x, size), {x}), s)
  {
    var e := Exclude(s, {x});
    if size > 0 {
      var t := Truncate(e, size - 1);
      TruncateCons(x, e, size);
      ExcludeAbsent(t, {x});
      ExcludeSubsequence(s, {x});
      SubsequencePrefix(e, s, |t|);
    }
  }

  /**
   * After pushing distinct names `recent` (newest first) the window holds them
   * followed by what it held before that was not pushed again, cut to `size`.
   */
  lemma {:induction false} PushAllWindow(s: seq<Name>, recent: seq<Name>, size: nat)
    requires WindowOk(s, size) && Distinct(recent)
    ensures PushAll(s, recent, size) == Truncate(recent + Exclude(s, Elems(recent)), size)
  {
    if recent == [] {
      assert Elems(recent) == {};
      ExcludeAbsent(s, {});
      assert recent + Exclude(s, {}) == s;
    } else {
      var x, r := recent[0], recent[1..];
      var a := r + Exclude(s, Elems(r));
      calc {
        PushAll(s, recent, size);
        Pushed(PushAll(s, r, size), x, size);
        { DistinctTail(recent); PushAllWindow(s, r, size); }
        Pushed(Truncate(a, size), x, size);
        { DistinctTail(recent);
          ExcludeDistinct(s, Elems(r));
          DistinctAppend(r, Exclude(s, Elems(r)));
          PushAfterTruncate(a, x, size); }
        Truncate([x] + Exclude(a, {x}), size);
        { PushedHistory(s, recent); }
        Truncate(recent + Exclude(s, Elems(recent)), size);
      }
    }
  }

  /** Pushing onto a window that was cut to `size` is pushing onto the uncut one. */
  lemma PushAfterTruncate(a: seq<Name>, x: Name, size: nat)
    requires Distinct(a)
    ensures Pushed(Truncate(a, size), x, size) == Truncate([x] + Exclude(a, {x}), size)
  {
    if size > 0 {
      TruncateExclude(a, x, size);
      TruncateCons(x, Exclude(Truncate(a, size), {x}), size);
      TruncateCons(x, Exclude(a, {x}), size);
    }
  }

  /** The delete-and-unshift step of PushAllWindow, before any cutting. */
  lemma PushedHistory(s: seq<Name>, recent: seq<Name>)
    requires Distinct(recent) && recent != []
    ensures [recent[0]] + Exclude(recent[1..] + Exclude(s, Elems(recent[1..])), {recent[0]})
         == recent + Exclude(s, Elems(recent))
  {
    var x, r := recent[0], recent[1..];
    var older := Exclude(s, Elems(r));
    calc {
      [x] + Exclude(r + older, {x});
      { ExcludeAppend(r, older, {x}); }
      [x] + (Exclude(r, {x}) + Exclude(older, {x}));
      { NotInTail(recent); ExcludeAbsent(r, {x}); }
      [x] + (r + Exclude(older, {x}));
      { ExcludeTwice(s, Elems(r), {x}); assert Elems(recent) == Elems(r) + {x}; }
      [x] + (r + Exclude(s, Elems(recent)));
      { assert recent == [x] + r; }
      recent + Exclude(s, Elems(recent));
    }
  }

  /**
   * Once `size` or more distinct names have been pushed, the window holds
   * exactly the `size` most recent of them, newest first, and nothing older.
   */
  lemma WindowHoldsMostRecent(s: seq<Name>, recent: seq<Name>, size: nat)
    requires WindowOk(s, size) && Distinct(recent) && |recent| >= size
    ensures PushAll(s, recent, size) == recent[..size]
  {
    PushAllWindow(s, recent, size);
    assert (recent + Exclude(s, Elems(recent)))[..size] == recent[..size];
  }

  /**
   * The source's `push` agrees with the intended one whenever the pushed name
   * is not already in the window (the only case the game loop produces), and
   * differs on the input below, where it raises instead of moving the name.
   */
  lemma PushAsWrittenAgreesOnNewNames(s: seq<Name>, x: Name, size: nat)
    requires x !in s
    ensures PushAsWritten(s, x, size) == Some(Pushed(s, x, size))
  {
    ExcludeAbsent(s, {x});
  }

  /** `push("ann")` on a window holding `"ann"` raises in the source; the intended push keeps one "ann". */
  lemma DeleteValueRaises()
    ensures PushAsWritten(["ann"], "ann", 5) == None
    ensures Pushed(["ann"], "ann", 5) == ["ann"]
  {
    assert Exclude(["ann"], {"ann"}) == Exclude([], {"ann"});
  }

  /** `LRU`: the recency window as a mutable object. */
  class LRU {
    /** The most names the window holds (`@size`). */
    const size: nat
    /** The names held, newest first (`@data`). */
    var data: seq<Name>

    ghost predicate Valid()
      reads this
    {
      WindowOk(data, size)
    }

    /** `LRU.new(size)`: an empty window. */
    constructor (size: nat)
      ensures Valid() && this.size == size && data == []
    {
      this.size := size;
      data := [];
    }

    /** `push`: records `item` as the name shown most recently. */
    method Push(item: Name)
      requires Valid()
      modifies this
      ensures Valid()
      ensures data == Pushed(old(data), item, size)
    {
      ghost var s := data;
      if item in data {
        data := Exclude(data, {item});
      } else {
        ExcludeAbsent(data, {item});
      }
      data := [item] + data;
      if |data| > size {
        data := data[..|data| - 1];
      }
      PushKeepsWindow(s, item, size);
    }

    /**
     * `has?`: whether the window holds `item`. The selection in module
     * Scoring reads the window's contents directly (`n !in data`), which is
     * what this method is proved to test.
     */
    method Has(item: Name) returns (b: bool)
      ensures b <==> item in data
    {
      b := item in data;
    }
  }
}
