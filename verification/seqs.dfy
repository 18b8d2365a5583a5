/** Sequence helpers: duplicate-free sequences standing for JavaScript `Set`s
    (which iterate in insertion order), positions, prefixes and joins. */
module Seqs {

  /** No element occurs twice. */
  predicate NoDup<T(==)>(s: seq<T>) {
    forall i, j :: 0 <= i < j < |s| ==> s[i] != s[j]
  }

  /** `Set.prototype.add` on an insertion-ordered set: a new element goes to
      the end, an element already present changes nothing. */
  function AddUnique<T(==)>(s: seq<T>, x: T): (r: seq<T>)
    ensures x in r
    ensures forall i :: 0 <= i < |s| ==> s[i] in r
    ensures forall i :: 0 <= i < |r| ==> r[i] in s || r[i] == x
    ensures |s| <= |r| <= |s| + 1 && r[..|s|] == s
    ensures x in s <==> r == s
    ensures NoDup(s) ==> NoDup(r)
  {
    if x in s then s else s + [x]
  }

  /** The first occurrences of the elements of `s`, in order: what a
      JavaScript `Set` built by adding the elements of `s` one by one holds. */
  function Dedup<T(==)>(s: seq<T>): (r: seq<T>)
    ensures NoDup(r)
    ensures forall i :: 0 <= i < |s| ==> s[i] in r
    ensures forall i :: 0 <= i < |r| ==> r[i] in s
    ensures |r| <= |s|
  {
    if |s| == 0 then [] else AddUnique(Dedup(s[..|s| - 1]), s[|s| - 1])
  }

  /** Strictly increasing positions. */
  predicate Increasing(pos: seq<nat>) {
    forall a, b :: 0 <= a < b < |pos| ==> pos[a] < pos[b]
  }

  /** The positions from `lo` on where `mask` holds, in increasing order:
      which elements an `Array.prototype.filter` keeps, and in what order. */
  function Positions(mask: seq<bool>, lo: nat): (pos: seq<nat>)
    requires lo <= |mask|
    ensures Increasing(pos)
    ensures forall k :: 0 <= k < |pos| ==> lo <= pos[k] < |mask| && mask[pos[k]]
    decreases |mask| - lo
  {
    if lo == |mask| then []
    else
      var rest := Positions(mask, lo + 1);
      if mask[lo] then [lo] + rest else rest
  }

  /** Every set position from `lo` on is listed. */
  lemma {:induction false} PositionsCover(mask: seq<bool>, lo: nat, j: nat)
    requires lo <= j < |mask| && mask[j]
    ensures j in Positions(mask, lo)
    decreases |mask| - lo
  {
    if lo < j {
      PositionsCover(mask, lo + 1, j);
    }
  }


  /** Extending the mask by one entry extends the positions by at most that
      entry's position. */
  lemma {:induction false} PositionsAppend(mask: seq<bool>, b: bool, lo: nat)
    requires lo <= |mask|
    ensures Positions(mask + [b], lo) == Positions(mask, lo) + (if b then [|mask|] else [])
    decreases |mask| - lo
  {
    if lo < |mask| {
      PositionsAppend(mask, b, lo + 1);
      assert (mask + [b])[lo] == mask[lo];
    } else {
      assert (mask + [b])[lo] == b;
    }
  }

  /** Whether each element of `s` occurs for the first time. */
  ghost function FirstMask<T>(s: seq<T>): seq<bool> {
    seq(|s|, j requires 0 <= j < |s| => s[j] !in s[..j])
  }

  /** The first-occurrence mask of a longer sequence extends that of its
      prefix. */
  lemma FirstMaskAppend<T>(s: seq<T>)
    requires |s| > 0
    ensures FirstMask(s) == FirstMask(s[..|s| - 1]) + [s[|s| - 1] !in s[..|s| - 1]]
  {
    var p := s[..|s| - 1];
    forall j | 0 <= j < |p| ensures FirstMask(s)[j] == FirstMask(p)[j] {
      assert s[..j] == p[..j];
    }
  }

  /** A set built by adding the elements of `s` one by one iterates over
      their first occurrences, in the order of `s`. */
  lemma {:induction false} DedupKeepsFirstOccurrences<T>(s: seq<T>)
    ensures var pos := Positions(FirstMask(s), 0);
            |Dedup(s)| == |pos| && forall k :: 0 <= k < |pos| ==> Dedup(s)[k] == s[pos[k]]
  {
    if |s| > 0 {
      var p := s[..|s| - 1];
      var x := s[|s| - 1];
      var d := Dedup(p);
      DedupKeepsFirstOccurrences(p);
      FirstMaskAppend(s);
      PositionsAppend(FirstMask(p), x !in p, 0);
      assert Dedup(s) == AddUnique(d, x);
      assert x in d <==> x in p by {
        if x in p { var i :| 0 <= i < |p| && p[i] == x; }
        if x in d { var i :| 0 <= i < |d| && d[i] == x; }
      }
      SelectionStep(s, d, Positions(FirstMask(p), 0), x !in p);
    }
  }

  /** One step of the first-occurrence induction: the prefix's selection
      carries over, and a new last element adds its own position. */
  lemma SelectionStep<T>(s: seq<T>, d: seq<T>, pp: seq<nat>, isNew: bool)
    requires |s| > 0 && |d| == |pp|
    requires forall k :: 0 <= k < |pp| ==> pp[k] < |s| - 1 && d[k] == s[..|s| - 1][pp[k]]
    ensures var pos := pp + (if isNew then [|s| - 1] else []);
            var r := d + (if isNew then [s[|s| - 1]] else []);
            |r| == |pos| && forall k :: 0 <= k < |pos| ==> r[k] == s[pos[k]]
  {
  }

  /** `r` lists `vals` at the positions `pos`, in order. */
  ghost predicate SelectedAt<T>(r: seq<T>, vals: seq<T>, pos: seq<nat>) {
    |r| == |pos| && forall k :: 0 <= k < |pos| ==> pos[k] < |vals| && r[k] == vals[pos[k]]
  }

  /** One step of a filter over a suffix: position `i` joins the selection
      in front exactly when the mask holds there. */
  lemma SelectionCons<T>(mask: seq<bool>, vals: seq<T>, i: nat, rest: seq<T>)
    requires i < |mask| == |vals|
    requires SelectedAt(rest, vals, Positions(mask, i + 1))
    ensures SelectedAt((if mask[i] then [vals[i]] else []) + rest, vals, Positions(mask, i))
  {
  }

  /** Step `j` of a suffix filter: `vals[j]` goes in front of the rest
      exactly when the mask holds at `j`. */
  ghost predicate FilterStep<T>(mask: seq<bool>, vals: seq<T>, parts: seq<seq<T>>, j: nat)
    requires j < |mask| == |vals| && |parts| == |mask| + 1
  {
    parts[j] == (if mask[j] then [vals[j]] else []) + parts[j + 1]
  }

  /** A filter written as a suffix recursion selects `vals` at the mask's
      positions: `parts[j]` is its result from `j` on. */
  lemma {:induction false} FilterByMask<T>(mask: seq<bool>, vals: seq<T>, parts: seq<seq<T>>, i: nat)
    requires |vals| == |mask| && |parts| == |mask| + 1 && i <= |mask|
    requires parts[|mask|] == []
    requires forall j :: i <= j < |mask| ==> FilterStep(mask, vals, parts, j)
    ensures SelectedAt(parts[i], vals, Positions(mask, i))
    decreases |mask| - i
  {
    if i < |mask| {
      FilterByMask(mask, vals, parts, i + 1);
      SelectionCons(mask, vals, i, parts[i + 1]);
      assert FilterStep(mask, vals, parts, i);
    }
  }

  /** `block` occurs in `s` at `a`, directly followed by `sep`. */
  ghost predicate BlockAt<T>(s: seq<T>, block: seq<T>, sep: T, a: nat) {
    a + |block| < |s| && s[a..a + |block|] == block && s[a + |block|] == sep
  }

  /** A block keeps its place, shifted, behind a prefix and in front of a
      suffix. */
  lemma BlockShift<T>(pre: seq<T>, s: seq<T>, post: seq<T>, block: seq<T>, sep: T, a: nat)
    requires BlockAt(s, block, sep, a)
    ensures BlockAt(pre + s + post, block, sep, |pre| + a)
  {
    assert (pre + s + post)[|pre| + a..|pre| + a + |block|] == s[a..a + |block|];
  }

  /** A block followed by its separator heads the sequence. */
  lemma BlockFirst<T>(block: seq<T>, sep: T, rest: seq<T>)
    ensures BlockAt(block + [sep] + rest, block, sep, 0)
  {
    assert (block + [sep] + rest)[..|block|] == block;
  }

  /** `block` occurs somewhere in `s`, directly followed by `sep`. */
  ghost predicate ContainsBlock<T>(s: seq<T>, block: seq<T>, sep: T) {
    exists a :: BlockAt(s, block, sep, a)
  }

  /** Step `k` of a concatenation written as a suffix recursion: `parts[k]`
      is `blocks[k]` in front of the rest. */
  ghost predicate ConcatStep<T>(parts: seq<seq<T>>, blocks: seq<seq<T>>, k: nat)
    requires k < |blocks| && |parts| == |blocks| + 1
  {
    parts[k] == blocks[k] + parts[k + 1]
  }

  /** The three parts of a concatenation are its slices. */
  lemma ConcatParts<T>(x: seq<T>, y: seq<T>, z: seq<T>)
    ensures (x + y + z)[..|x|] == x
    ensures (x + y + z)[|x|..|x| + |y|] == y
    ensures (x + y + z)[|x| + |y|..] == z
  {
  }

  /** The elements of `b` end `a + b`. */
  lemma TailOf<T>(a: seq<T>, b: seq<T>)
    ensures |b| <= |a + b| && (a + b)[|a + b| - |b|..] == b
  {
    assert (a + b)[|a|..] == b;
  }

  /** A block that ends in the separator is found, whole, in every part
      that starts at or before it. */
  lemma {:induction false} BlockInParts<T>(parts: seq<seq<T>>, blocks: seq<seq<T>>, i: nat, j: nat, block: seq<T>, sep: T)
    requires |parts| == |blocks| + 1 && i <= j < |blocks|
    requires forall k :: i <= k < |blocks| ==> ConcatStep(parts, blocks, k)
    requires blocks[j] == block + [sep]
    ensures ContainsBlock(parts[i], block, sep)
    decreases j - i
  {
    assert ConcatStep(parts, blocks, i);
    if i == j {
      BlockFirst(block, sep, parts[i + 1]);
    } else {
      BlockInParts(parts, blocks, i + 1, j, block, sep);
      var a :| BlockAt(parts[i + 1], block, sep, a);
      BlockShift(blocks[i], parts[i + 1], [], block, sep, a);
      assert blocks[i] + parts[i + 1] + [] == parts[i];
    }
  }

  /** Position of the (first) occurrence of `x` in `s`. */
  function IndexOf<T(==)>(s: seq<T>, x: T): (k: nat)
    requires x in s
    ensures k < |s| && s[k] == x && x !in s[..k]
  {
    if s[0] == x then 0 else 1 + IndexOf(s[1..], x)
  }

  /** In a duplicate-free sequence an element's position is its only one. */
  lemma IndexOfUnique<T>(s: seq<T>, k: nat)
    requires NoDup(s) && k < |s|
    ensures IndexOf(s, s[k]) == k
  {
    var j := IndexOf(s, s[k]);
    assert s[j] == s[k];
  }

  /** `prefix` is a prefix of `s`. */
  predicate StartsWith<T(==)>(s: seq<T>, prefix: seq<T>) {
    |prefix| <= |s| && s[..|prefix|] == prefix
  }

  /** `Array.prototype.join`: the parts with `sep` between neighbours. */
  function Join(parts: seq<string>, sep: string): (r: string)
    ensures |parts| == 1 ==> r == parts[0]
    ensures |parts| == 0 ==> r == ""
  {
    if |parts| == 0 then ""
    else if |parts| == 1 then parts[0]
    else parts[0] + sep + Join(parts[1..], sep)
  }
}
