/** Highlights that plugins add to the lines of a buffer: the bufhl functions of src/nvim/buffer.c. */
module Highlights {
  import opened TextLines
  /** Highlighting of the columns from `start` to `stop`. */
  datatype Item = Item(srcId: int, hlId: int, start: int, stop: int)

  // ----- the attribute at a column -----

  /** `syn_id2attr` and `hl_combine_attr`, about which nothing is known. */
  datatype Attributes = Attributes(ofGroup: int -> int, combine: (int, int) -> int)

  predicate Covers(e: Item, col: int) { e.start <= col <= e.stop }

  /** The attributes of the items that cover the column, combined from the first to the last. */
  function Fold(at: Attributes, items: seq<Item>, col: int): int {
    if items == [] then 0
    else
      var last := items[|items| - 1];
      var attr := Fold(at, items[..|items| - 1], col);
      if Covers(last, col) then at.combine(attr, at.ofGroup(last.hlId)) else attr
  }

  /** An item counts exactly from its first to its last column, wherever it stands in the list. */
  lemma {:induction false} OutsideItem(at: Attributes, a: seq<Item>, e: Item, b: seq<Item>, col: int)
    requires col < e.start || col > e.stop
    ensures Fold(at, a + [e] + b, col) == Fold(at, a + b, col)
    decreases |b|
  {
    if b == [] {
      assert (a + [e] + b)[..|a|] == a && a + b == a;
    } else {
      var n := |b| - 1;
      assert (a + [e] + b)[..|a| + 1 + n] == a + [e] + b[..n] && (a + b)[..|a| + n] == a + b[..n];
      OutsideItem(at, a, e, b[..n], col);
    }
  }

  /** A later item is put over the earlier ones. */
  lemma TopItem(at: Attributes, a: seq<Item>, e: Item, col: int)
    requires e.start <= col <= e.stop
    ensures Fold(at, a + [e], col) == at.combine(Fold(at, a, col), at.ofGroup(e.hlId))
  {
    assert (a + [e])[..|a|] == a;
  }

  /** bufhl_lineinfo_T: the items of a line, and the attribute that holds up to column `validTo`. */
  class LineInfo {
    var entries: seq<Item>
    var current: int
    var validTo: int

    /** `bufhl_start_line` */
    method StartLine(items: seq<Item>) returns (any: bool)
      modifies this
      ensures entries == items && validTo == -1 && (any <==> items != [])
    {
      validTo := -1;
      entries := items;
      any := |entries| > 0;
    }

    /** The cache holds for all columns from `col` on that it claims to hold for. */
    ghost predicate CachedFrom(at: Attributes, col: int)
      reads this
    {
      forall c | col <= c <= validTo :: Fold(at, entries, c) == current
    }

    /** `bufhl_get_attr` */
    method GetAttr(at: Attributes, col: int) returns (attr: int)
      requires CachedFrom(at, col) && col <= MAXCOL
      modifies this`current, this`validTo
      ensures attr == Fold(at, entries, col)
      ensures CachedFrom(at, col) && col <= validTo && (validTo == old(validTo) || old(validTo) < col)
    {
      if col <= validTo {
        return current;
      }
      attr := 0;
      validTo := MAXCOL;
      for i := 0 to |entries|
        invariant col <= validTo && (i == 0 ==> validTo == MAXCOL)
        invariant forall c | col <= c <= validTo :: Fold(at, entries[..i], c) == attr
      {
        var entry := entries[i];
        ghost var was := validTo;
        if entry.start <= col && col <= entry.stop {
          var entryAttr := at.ofGroup(entry.hlId);
          attr := at.combine(attr, entryAttr);
          if entry.stop < validTo {
            validTo := entry.stop;
          }
        } else if col < entry.start && entry.start - 1 < validTo {
          validTo := entry.start - 1;
        }
        assert entries[..i + 1][..i] == entries[..i];
      }
      assert entries[..|entries|] == entries;
      current := attr;
    }
  }

  /** The columns of a line, drawn from left to right: what the callers of `bufhl_get_attr` do. */
  method DrawLine(at: Attributes, info: LineInfo, items: seq<Item>, cols: seq<int>) returns (attrs: seq<int>)
    requires forall i | 0 <= i < |cols| :: 0 <= cols[i] <= MAXCOL
    requires forall i, j | 0 <= i < j < |cols| :: cols[i] <= cols[j]
    modifies info
    ensures |attrs| == |cols| && forall i | 0 <= i < |cols| :: attrs[i] == Fold(at, items, cols[i])
  {
    var any := info.StartLine(items);
    attrs := [];
    for i := 0 to |cols|
      invariant info.entries == items && |attrs| == i
      invariant if i == 0 then info.validTo == -1 else info.CachedFrom(at, cols[i - 1])
      invariant forall j | 0 <= j < i :: attrs[j] == Fold(at, items, cols[j])
    {
      var attr := info.GetAttr(at, cols[i]);
      attrs := attrs + [attr];
    }
  }

  // ----- clearing the items of a source -----

  /** The items that are not of the source. */
  function Others(items: seq<Item>, srcId: int): seq<Item> {
    if items == [] then []
    else
      var last := items[|items| - 1];
      Others(items[..|items| - 1], srcId) + (if last.srcId != srcId then [last] else [])
  }

  /** bufhl_vec_T */
  class HlVector {
    var items: array<Item>
    var size: nat

    ghost predicate Valid()
      reads this
    {
      size <= items.Length
    }

    ghost function Contents(): seq<Item>
      reads this, items
      requires Valid()
    {
      items[..size]
    }

    /** The part of `bufhl_clear_line` that keeps the items of other sources, in place. */
    method RemoveSource(srcId: int)
      requires Valid()
      modifies this`size, items
      ensures Valid() && Contents() == if srcId < 0 then [] else Others(old(Contents()), srcId)
    {
      if srcId < 0 {
        size := 0;
      } else {
        ghost var was := items[..size];
        var newind: nat := 0;
        for i := 0 to size
          invariant newind <= i <= size == |was| && items[..newind] == Others(was[..i], srcId)
          invariant forall j | i <= j < size :: items[j] == was[j]
        {
          if items[i].srcId != srcId {
            if i != newind {
              items[newind] := items[i];
            }
            newind := newind + 1;
          }
          assert was[..i + 1][..i] == was[..i];
        }
        assert was[..size] == was;
        size := newind;
      }
    }
  }

  /** The highlights of a buffer, by line. */
  class BufferHighlights {
    var info: map<int, HlVector>

    ghost function Vectors(): set<HlVector>
      reads this
    {
      set k | k in info :: info[k]
    }

    ghost function Arrays(): set<array<Item>>
      reads this, Vectors()
    {
      set k | k in info :: info[k].items
    }

    /** No two lines share their items. */
    ghost predicate Valid()
      reads this, Vectors()
    {
      && (forall k {:trigger info[k]} | k in info :: info[k].Valid())
      && (forall k, l {:trigger info[k], info[l]} | k in info && l in info && k != l ::
          info[k] != info[l] && info[k].items != info[l].items)
    }

    /** The items of line l. */
    ghost function At(l: int): seq<Item>
      requires Valid()
      reads this, Vectors(), Arrays()
    {
      if l in info then info[l].Contents() else []
    }

    /** `bufhl_clear_line` */
    method ClearLine(srcId: int, l: int) returns (changed: bool)
      requires Valid() && l in info
      modifies this, info[l], info[l].items
      ensures Valid() && info == if At(l) == [] then old(info) - {l} else old(info)
      ensures At(l) == if srcId < 0 then [] else Others(old(At(l)), srcId)
      ensures forall k | k in old(info) && k != l :: k in info && info[k] == old(info[k]) && At(k) == old(At(k))
      ensures changed <==> |At(l)| != |old(At(l))|
    {
      var lineinfo := info[l];
      var oldsize := lineinfo.size;
      lineinfo.RemoveSource(srcId);
      changed := lineinfo.size != oldsize;
      if lineinfo.size == 0 {
        info := info - {l};
      }
    }
  }
}
