/** What sharing does to saved text: Flush of internal/vfs/write.go passes a
    slice of the staging buffer to the store, and the store and the cache keep
    that slice. The rest of this project takes Put to copy its argument; this
    module shows what becomes of the kept text instead. */
module Aliasing {
  import opened Prelude
  import opened Staging

  // ---- the array behind the buffer ----

  /** A Go byte slice that starts its backing array: len bytes in use, the rest
      spare capacity. */
  class Slice {
    const spare: nat -> nat  // how much room the runtime adds when it reallocates
    var cells: array<Byte>
    var len: nat

    ghost predicate Valid()
      reads this
    {
      len <= cells.Length
    }

    function View(): Bytes
      requires Valid()
      reads this, cells
    {
      cells[..len]
    }

    /** k describes somebody who keeps this array, still shared or left behind. */
    ghost predicate Shows(k: Keeper, kept: array<Byte>)
      reads this, kept
    {
      k.cells == kept[..] && (k.shared <==> cells == kept) && (k.shared ==> k.len == len)
    }

    constructor (capacity: nat, spare: nat -> nat)
      ensures Valid() && len == 0 && cells.Length == capacity && fresh(cells) && this.spare == spare
    {
      this.spare := spare;
      cells := new Byte[capacity](_ => 0);
      len := 0;
    }

    /** append of one zero byte: in place while there is room, else into a larger
        copy, leaving the old array to whoever still holds it. */
    method Append()
      requires Valid()
      modifies this`cells, this`len, cells
      ensures Valid() && len == old(len) + 1 && View() == old(View()) + [0]
      ensures if old(len) < old(cells.Length) then cells == old(cells) else fresh(cells)
      ensures forall i :: 0 <= i < old(cells.Length) ==> old(cells)[i] == if i == old(len) then 0 else old(cells[i])
    {
      if len == cells.Length {
        var room := spare(len);
        var more := new Byte[len + 1 + room](_ => 0);
        forall i | 0 <= i < len {
          more[i] := cells[i];
        }
        cells := more;
      }
      cells[len] := 0;
      len := len + 1;
    }

    /** The loop of single appends in Truncate and WriteAt. */
    method Grow(size: nat)
      requires Valid()
      modifies this`cells, this`len, cells
      ensures Valid() && View() == Padded(old(View()), size)
      ensures cells == old(cells) || fresh(cells)
      ensures Shows(Grown(Keeper(old(cells[..]), old(len), true), size), old(cells))
    {
      ghost var view, was, array0 := View(), cells[..], cells;
      while len < size
        invariant Valid() && view <= View() && (len == |view| || len <= size)
        invariant forall i :: |view| <= i < len ==> View()[i] == 0
        invariant if len <= array0.Length then cells == array0 else fresh(cells)
        invariant forall i :: 0 <= i < array0.Length ==> array0[i] == if |view| <= i < len then 0 else was[i]
      {
        Append();
      }
      assert array0[..] == Zeroed(was, |view|, size);
    }

    method TruncateTo(size: int)
      requires Valid()
      modifies this`cells, this`len, cells
      ensures Valid() && View() == Truncated(old(View()), size)
      ensures cells == old(cells) || fresh(cells)
      ensures Shows(After(Keeper(old(cells[..]), old(len), true), Truncate(size)), old(cells))
    {
      var n := if size < 0 then 0 else size;
      if len > n {
        len := n;
      } else {
        Grow(n);
      }
    }

    /** copy into the buffer. */
    method Copy(off: nat, data: Bytes)
      requires Valid() && off + |data| <= len
      modifies cells
      ensures cells[..] == Spliced(old(cells[..]), off, data)
      ensures View() == Spliced(old(View()), off, data)
    {
      forall i | 0 <= i < |data| {
        cells[off + i] := data[i];
      }
    }

    method WriteAt(off: int, data: Bytes)
      requires Valid()
      modifies this`cells, this`len, cells
      ensures Valid() && View() == Edited(old(View()), Edit.WriteAt(off, data))
      ensures cells == old(cells) || fresh(cells)
      ensures Shows(After(Keeper(old(cells[..]), old(len), true), Edit.WriteAt(off, data)), old(cells))
    {
      if off < 0 {
        return;
      }
      ghost var g := Grown(Keeper(cells[..], len, true), off + |data|);
      WrittenIsSpliced(View(), off, data);
      ghost var kept := cells;
      Grow(off + |data|);
      assert Shows(g, kept);
      Copy(off, data);
    }
  }

  // ---- what a keeper of that array sees ----

  /** The array somebody keeps; while the handle still writes to it, the length
      of the handle's buffer. */
  datatype Keeper = Keeper(cells: Bytes, len: nat, shared: bool)

  predicate Fits(k: Keeper) {
    k.shared ==> k.len <= |k.cells|
  }

  /** Cells from..to set to zero, as far as there are such cells. */
  function Zeroed(cells: Bytes, from: nat, to: nat): (r: Bytes)
    ensures |r| == |cells|
  {
    seq(|cells|, i requires 0 <= i < |cells| => if from <= i < to then 0 else cells[i])
  }

  /** data over the cells from off on. */
  function Spliced(cells: Bytes, off: nat, data: Bytes): (r: Bytes)
    requires off + |data| <= |cells|
    ensures |r| == |cells|
  {
    seq(|cells|, i requires 0 <= i < |cells| => if off <= i < off + |data| then data[i - off] else cells[i])
  }

  lemma WrittenIsSpliced(buf: Bytes, off: nat, data: Bytes)
    ensures Written(buf, off, data) == Spliced(Padded(buf, off + |data|), off, data)
  {
  }

  /** Growing leaves zeros up to the end of the array even when it then moves to
      a new one. */
  function Grown(k: Keeper, size: nat): (r: Keeper)
    requires k.shared && Fits(k)
    ensures Fits(r) && |r.cells| == |k.cells| && (r.shared ==> size <= r.len)
  {
    var cells := Zeroed(k.cells, k.len, size);
    if size <= |cells| then Keeper(cells, if size <= k.len then k.len else size, true) else Keeper(cells, 0, false)
  }

  function After(k: Keeper, e: Edit): (r: Keeper)
    requires Fits(k)
    ensures Fits(r) && |r.cells| == |k.cells|
  {
    if !k.shared then k
    else
      match e
      case WriteAt(off, data) =>
        if off < 0 then k
        else
          var g := Grown(k, off + |data|);
          if g.shared then g.(cells := Spliced(g.cells, off, data)) else g
      case Truncate(size) =>
        var n := NonNegative(size);
        if k.len > n then k.(len := n) else Grown(k, n)
  }

  function AfterAll(k: Keeper, edits: seq<Edit>): (r: Keeper)
    requires Fits(k)
    ensures Fits(r) && |r.cells| == |k.cells|
    decreases |edits|
  {
    if edits == [] then k else AfterAll(After(k, edits[0]), edits[1..])
  }

  /** Cell i of a shared array after an edit: the new data if it stays in place,
      zero if it was spare and the buffer grew over it. */
  function CellAfter(k: Keeper, e: Edit, i: nat): Byte
    requires i < |k.cells|
  {
    match e
    case WriteAt(off, data) =>
      if off < 0 then k.cells[i]
      else if off + |data| <= |k.cells| && off <= i < off + |data| then data[i - off]
      else if k.len <= i < off + |data| then 0
      else k.cells[i]
    case Truncate(size) => if k.len <= i < size then 0 else k.cells[i]
  }

  lemma OneAfter(k: Keeper, e: Edit, i: nat)
    requires Fits(k) && k.shared && i < |k.cells|
    ensures After(k, e).cells[i] == CellAfter(k, e, i)
  {
  }

  /** What an edit may do without changing the kept text: repeat its bytes, fill
      cut cells that are zero anyway with zeros, and move to a new array; but not
      move when bytes of the text were cut off before. */
  predicate Harmless(k: Keeper, n: nat, e: Edit)
    requires n <= |k.cells|
  {
    !k.shared ||
    match e
    case WriteAt(off, data) =>
      || off < 0
      || forall i :: 0 <= i < n ==>
           if off + |data| <= |k.cells| && off <= i < off + |data| then k.cells[i] == data[i - off]
           else k.len <= i < off + |data| ==> k.cells[i] == 0
    case Truncate(size) => forall i :: k.len <= i < n && i < size ==> k.cells[i] == 0
  }

  lemma HarmlessExactly(k: Keeper, n: nat, e: Edit)
    requires Fits(k) && n <= |k.cells|
    ensures After(k, e).cells[..n] == k.cells[..n] <==> Harmless(k, n, e)
  {
    if k.shared {
      var after := After(k, e).cells;
      forall i | 0 <= i < n
        ensures after[i] == after[..n][i] && k.cells[i] == k.cells[..n][i]
        ensures after[i] == CellAfter(k, e, i)
      {
        OneAfter(k, e, i);
      }
    }
  }

  /** The kept text is there at every moment of the session. */
  predicate SurvivesThroughout(k: Keeper, text: Bytes, edits: seq<Edit>)
    requires Fits(k) && |text| <= |k.cells|
    decreases |edits|
  {
    k.cells[..|text|] == text && (edits != [] ==> SurvivesThroughout(After(k, edits[0]), text, edits[1..]))
  }

  /** Every edit of the session is harmless when it is made. */
  predicate HarmlessThroughout(k: Keeper, n: nat, edits: seq<Edit>)
    requires Fits(k) && n <= |k.cells|
    decreases |edits|
  {
    edits != [] ==> Harmless(k, n, edits[0]) && HarmlessThroughout(After(k, edits[0]), n, edits[1..])
  }

  /** A kept text survives a whole editing session, unchanged at every moment, if
      and only if every edit is harmless when it is made. */
  lemma {:induction false} KeptSurvivesExactly(k: Keeper, text: Bytes, edits: seq<Edit>)
    requires Fits(k) && |text| <= |k.cells| && k.cells[..|text|] == text
    ensures SurvivesThroughout(k, text, edits) <==> HarmlessThroughout(k, |text|, edits)
    decreases |edits|
  {
    if edits != [] {
      HarmlessExactly(k, |text|, edits[0]);
      if Harmless(k, |text|, edits[0]) {
        KeptSurvivesExactly(After(k, edits[0]), text, edits[1..]);
      }
    }
  }

  /** One byte written at the start changes a kept text. */
  lemma OneByteChanges(k: Keeper, n: nat) returns (edits: seq<Edit>)
    requires Fits(k) && k.shared && 0 < n <= |k.cells|
    ensures AfterAll(k, edits).cells[..n] != k.cells[..n]
  {
    var other: Byte := if k.cells[0] == 0 then 1 else 0;
    var e := WriteAt(0, [other]);
    OneAfter(k, e, 0);
    edits := [e];
    assert edits[1..] == [];
    assert AfterAll(k, edits) == After(k, e);
    assert AfterAll(k, edits).cells[..n][0] == other && k.cells[..n][0] != other;
  }

  /** No saved text is safe from its own handle: it survives every later session
      if and only if it is empty or the handle has moved to another array. */
  lemma SafeForEverExactly(k: Keeper, n: nat)
    requires Fits(k) && n <= |k.cells|
    ensures (forall edits :: AfterAll(k, edits).cells[..n] == k.cells[..n]) <==> !k.shared || n == 0
  {
    if k.shared && n > 0 {
      var edits := OneByteChanges(k, n);
    } else {
      forall edits
        ensures AfterAll(k, edits).cells[..n] == k.cells[..n]
      {
        LeftBehind(k, edits);
      }
    }
  }

  lemma {:induction false} LeftBehind(k: Keeper, edits: seq<Edit>)
    requires Fits(k)
    ensures !k.shared ==> AfterAll(k, edits) == k
    decreases |edits|
  {
    if edits != [] {
      LeftBehind(k, edits[1..]);
    }
  }

  /** What an editor does that saves again: it empties the file and writes it
      anew. */
  function Rewritten(k: Keeper, data: Bytes): Keeper
    requires Fits(k)
  {
    After(After(k, Truncate(0)), WriteAt(0, data))
  }

  /** A text that fits goes over the kept one; one that outgrows the array leaves
      the kept one all zeros. */
  lemma RewriteErases(k: Keeper, data: Bytes)
    requires Fits(k) && k.shared
    ensures Rewritten(k, data).cells == if |data| <= |k.cells| then data + k.cells[|data|..] else Zeros(|k.cells|)
  {
    var after := Rewritten(k, data).cells;
    forall i | 0 <= i < |after|
      ensures after[i] == if |data| > |k.cells| then 0 else if i < |data| then data[i] else k.cells[i]
    {
      OneAfter(k.(len := 0), WriteAt(0, data), i);
    }
  }

  /** The same on the objects: the handle shows the new text, and the array the
      store was given holds nothing but zeros. */
  method SaveThenRewrite(h: Slice, data: Bytes) returns (kept: array<Byte>)
    requires h.Valid() && |data| > h.cells.Length
    modifies h`cells, h`len, h.cells
    ensures kept == old(h.cells) && kept[..] == Zeros(kept.Length)
    ensures h.Valid() && h.View() == data
  {
    kept := h.cells;
    ghost var k := Keeper(kept[..], h.len, true);
    h.TruncateTo(0);
    h.WriteAt(0, data);
    RewriteErases(k, data);
  }

  /** The document {} saved from an array of two bytes: emptied and written with
      one byte more, the store is left with two zeros, which trim to nothing. */
  lemma SavedObjectErased()
    ensures var k := Keeper([0x7B, 0x7D], 2, true);
            var after := Rewritten(k, [0x7B, 0x20, 0x7D]);
            after.cells == [0, 0] && TrimNuls(after.cells) == []
  {
    RewriteErases(Keeper([0x7B, 0x7D], 2, true), [0x7B, 0x20, 0x7D]);
    TrimNulsIsTrimmed([0, 0], []);
  }
}
