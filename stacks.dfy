/**
 * The two stacks of `markdownToPrettyHtml`: the heading stack, whose entries
 * are the levels of the open `<details>` elements (converter.js:77, 145-151),
 * and the list stack, whose entries are the kind and nesting level of the open
 * lists (converter.js:86, 164-171). Each unwinding loop is specified by the
 * function here that its methods are proved against.
 */
module Stacks {
  import opened Blocks

  /** Strictly increasing levels from the bottom of a stack to its top. */
  predicate Increasing(levels: seq<nat>) {
    forall i, j :: 0 <= i < j < |levels| ==> levels[i] < levels[j]
  }

  /** The heading stack's invariant: strictly increasing levels, each a heading level. */
  predicate HeadingLevels(levels: seq<nat>) {
    Increasing(levels) && forall i :: 0 <= i < |levels| ==> 1 <= levels[i] <= 6
  }

  lemma HeadingLevelsPop(levels: seq<nat>)
    requires HeadingLevels(levels) && levels != []
    ensures HeadingLevels(levels[..|levels| - 1])
  {
  }

  /**
   * `while (stack.length && stack[stack.length-1].level >= level) stack.pop()`
   * (converter.js:145-148): what is left is a prefix of the stack, every entry
   * removed was at least `level`, and the new top is below `level`.
   */
  function Unwind(levels: seq<nat>, level: nat): (r: seq<nat>)
    ensures |r| <= |levels| && r == levels[..|r|]
    ensures forall k :: |r| <= k < |levels| ==> levels[k] >= level
    ensures r == [] || r[|r| - 1] < level
    decreases |levels|
  {
    if levels != [] && levels[|levels| - 1] >= level then Unwind(levels[..|levels| - 1], level) else levels
  }

  /** The entries the loop leaves: a prefix whose top is below `level`, all after it at least `level`. */
  lemma {:induction false} UnwindPrefix(levels: seq<nat>, level: nat, n: nat)
    requires n <= |levels|
    requires forall k :: n <= k < |levels| ==> levels[k] >= level
    requires n == 0 || levels[n - 1] < level
    ensures Unwind(levels, level) == levels[..n]
    decreases |levels|
  {
    if n < |levels| {
      UnwindPrefix(levels[..|levels| - 1], level, n);
    } else {
      assert levels[..n] == levels;
    }
  }

  /**
   * On a strictly increasing stack, a heading of level `level` closes exactly
   * the open headings of level `level` or deeper, and becomes the new top.
   */
  lemma HeadingReplaces(levels: seq<nat>, level: nat)
    requires HeadingLevels(levels) && 1 <= level <= 6
    ensures forall x :: x in Unwind(levels, level) <==> x in levels && x < level
    ensures HeadingLevels(Unwind(levels, level) + [level])
  {
    var r := Unwind(levels, level);
    forall x | x in levels && x < level ensures x in r {
      var k :| 0 <= k < |levels| && levels[k] == x;
      assert k < |r|;
      assert r[k] == x;
    }
    forall x | x in r ensures x in levels && x < level {
      var k :| 0 <= k < |r| && r[k] == x;
      assert levels[k] == x;
      if k < |r| - 1 {
        assert levels[k] < levels[|r| - 1];
      }
    }
    var s := r + [level];
    forall i, j | 0 <= i < j < |s| ensures s[i] < s[j] {
      if j < |r| {
        assert s[i] == levels[i] && s[j] == levels[j];
      } else {
        assert s[i] in r;
      }
    }
  }

  /** An open list: its tag and its nesting level. */
  datatype ListEntry = ListEntry(kind: ListKind, level: nat)

  /** The list stack's invariant: one kind throughout, strictly increasing levels, each at least 1. */
  predicate ListLevels(entries: seq<ListEntry>) {
    && (forall i, j :: 0 <= i < j < |entries| ==> entries[i].kind == entries[j].kind)
    && (forall i, j :: 0 <= i < j < |entries| ==> entries[i].level < entries[j].level)
    && (forall i :: 0 <= i < |entries| ==> entries[i].level >= 1)
  }

  lemma ListLevelsPop(entries: seq<ListEntry>)
    requires ListLevels(entries) && entries != []
    ensures ListLevels(entries[..|entries| - 1])
  {
  }

  /** The list loop pops an entry deeper than the item or of the other kind. */
  predicate Pops(e: ListEntry, kind: ListKind, level: nat) {
    e.level > level || e.kind != kind
  }

  /**
   * The pop loop of converter.js:164-166: pops while the top is deeper than
   * the item or of the other kind. What is left is a prefix, every entry
   * removed was deeper or of the other kind, and the new top is neither.
   */
  function UnwindLists(entries: seq<ListEntry>, kind: ListKind, level: nat): (r: seq<ListEntry>)
    ensures |r| <= |entries| && r == entries[..|r|]
    ensures forall k :: |r| <= k < |entries| ==> entries[k].level > level || entries[k].kind != kind
    ensures r == [] || (r[|r| - 1].level <= level && r[|r| - 1].kind == kind)
    decreases |entries|
  {
    if entries != [] && (entries[|entries| - 1].level > level || entries[|entries| - 1].kind != kind)
    then UnwindLists(entries[..|entries| - 1], kind, level)
    else entries
  }

  /** The entries the list loop leaves: a prefix whose top stops it, all after it popped. */
  lemma {:induction false} UnwindListsPrefix(entries: seq<ListEntry>, kind: ListKind, level: nat, n: nat)
    requires n <= |entries|
    requires forall k :: n <= k < |entries| ==> Pops(entries[k], kind, level)
    requires n == 0 || !Pops(entries[n - 1], kind, level)
    ensures UnwindLists(entries, kind, level) == entries[..n]
    decreases |entries|
  {
    if n < |entries| {
      UnwindListsPrefix(entries[..|entries| - 1], kind, level, n);
    } else {
      assert entries[..n] == entries;
    }
  }

  /** Whether an item opens a new list: the stack is empty or its top is shallower (converter.js:168). */
  predicate OpensList(r: seq<ListEntry>, level: nat) {
    r == [] || r[|r| - 1].level < level
  }

  /** The list stack after an item of the given kind and level (converter.js:164-171). */
  function AfterItem(entries: seq<ListEntry>, kind: ListKind, level: nat): seq<ListEntry> {
    var r := UnwindLists(entries, kind, level);
    if OpensList(r, level) then r + [ListEntry(kind, level)] else r
  }

  /** What the pop loop leaves has the item's kind throughout and keeps the list invariant. */
  lemma UnwindListsKind(entries: seq<ListEntry>, kind: ListKind, level: nat)
    requires ListLevels(entries)
    ensures var r := UnwindLists(entries, kind, level);
      ListLevels(r) && forall i :: 0 <= i < |r| ==> r[i].kind == kind
  {
    var r := UnwindLists(entries, kind, level);
    forall i | 0 <= i < |r| ensures r[i].kind == kind {
      assert r[i] == entries[i] && r[|r| - 1] == entries[|r| - 1];
    }
    forall i, j | 0 <= i < j < |r| ensures r[i].level < r[j].level {
      assert r[i] == entries[i] && r[j] == entries[j];
    }
  }

  /** Pushing a deeper entry of the same kind keeps the list invariant. */
  lemma PushKeepsLists(r: seq<ListEntry>, e: ListEntry)
    requires ListLevels(r) && e.level >= 1 && (r == [] || r[|r| - 1].level < e.level)
    requires forall i :: 0 <= i < |r| ==> r[i].kind == e.kind
    ensures ListLevels(r + [e])
  {
    var s := r + [e];
    forall i, j | 0 <= i < j < |s| ensures s[i].level < s[j].level {
      if j < |r| {
        assert s[i] == r[i] && s[j] == r[j];
      } else if i < |r| - 1 {
        assert s[i] == r[i];
      }
    }
  }

  /**
   * After an item, every open list has the item's kind, the levels still
   * increase strictly, and the top is exactly the item's level.
   */
  lemma ItemKeepsLists(entries: seq<ListEntry>, kind: ListKind, level: nat)
    requires ListLevels(entries) && level >= 1
    ensures ListLevels(AfterItem(entries, kind, level))
    ensures AfterItem(entries, kind, level) != []
    ensures AfterItem(entries, kind, level)[|AfterItem(entries, kind, level)| - 1] == ListEntry(kind, level)
    ensures forall e :: e in AfterItem(entries, kind, level) ==> e.kind == kind
  {
    var r := UnwindLists(entries, kind, level);
    UnwindListsKind(entries, kind, level);
    if OpensList(r, level) {
      PushKeepsLists(r, ListEntry(kind, level));
    }
  }

  /**
   * The pop loop's condition is any change of kind: an item of the other kind
   * closes every open list, at every depth, however shallow the item.
   */
  lemma KindSwitchClosesAll(entries: seq<ListEntry>, kind: ListKind, level: nat)
    requires ListLevels(entries) && entries != [] && entries[0].kind != kind
    ensures UnwindLists(entries, kind, level) == []
  {
  }

  /** Number of open lists of one kind. */
  function CountKind(entries: seq<ListEntry>, kind: ListKind): nat {
    if entries == [] then 0
    else CountKind(entries[..|entries| - 1], kind) + (if entries[|entries| - 1].kind == kind then 1 else 0)
  }

  lemma CountKindPush(entries: seq<ListEntry>, e: ListEntry, kind: ListKind)
    ensures CountKind(entries + [e], kind) == CountKind(entries, kind) + (if e.kind == kind then 1 else 0)
  {
    assert (entries + [e])[..|entries|] == entries;
  }
}
