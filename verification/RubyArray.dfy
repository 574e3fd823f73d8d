/** Ruby arrays whose buffers are shared until somebody writes (ruby/array.c). */
module RubyArray {
  import opened Wrappers

  /** The elements: nil, anything that is not an array, and arrays. */
  datatype Value = Nil | Other(id: int) | Ary(a: RArray)

  const ARY_DEFAULT_SIZE := 16

  /** The hidden array that owns a shared buffer. It never changes. */
  class Holder {
    const ptr: array<Value>
    const len: nat
    const capa: nat

    constructor (ptr: array<Value>, len: nat, capa: nat)
      ensures this.ptr == ptr && this.len == len && this.capa == capa
    {
      this.ptr, this.len, this.capa := ptr, len, capa;
    }
  }

  /** The `aux` union: the room in an own buffer, or the holder of a shared one. ELTS_SHARED says
      which of the two it is. */
  datatype Aux = Capa(capa: nat) | Shared(holder: Holder)

  /** No two arrays write to the same buffer: an array that owns its buffer is the only one that
      looks at it. */
  ghost predicate Separate(all: set<RArray>)
    reads all
  {
    (forall a :: a in all ==> a.Ok()) &&
    (forall a, b :: a in all && b in all && a != b && a.aux.Capa? ==> a.ptr != b.ptr)
  }

  function Nils(n: nat): (s: seq<Value>)
    ensures |s| == n && forall i :: 0 <= i < n ==> s[i] == Nil
  {
    seq(n, i => Nil)
  }

  /** Assignment at an index, with nils in between when it lies behind the end. */
  function Stored(s: seq<Value>, i: nat, v: Value): seq<Value> {
    if i < |s| then s[i := v] else s + Nils(i - |s|) + [v]
  }

  /** Where an index from the end points to. */
  function Index(s: seq<Value>, i: int): int {
    if i < 0 then i + |s| else i
  }

  function Min(a: int, b: int): int {
    if a < b then a else b
  }

  /** `len` elements from `beg` on are replaced. */
  function Spliced(s: seq<Value>, beg: nat, len: nat, rpl: seq<Value>): seq<Value> {
    if beg >= |s| then s + Nils(beg - |s|) + rpl
    else s[..beg] + rpl + s[Min(beg + len, |s|)..]
  }

  function Sliced(s: seq<Value>, beg: nat, len: nat): seq<Value>
    requires beg <= |s|
  {
    s[beg..Min(beg + len, |s|)]
  }

  /** Element by element: the old ones are kept, the new one stands at its index, and nils fill the gap. */
  lemma StoredAt(s: seq<Value>, i: nat, v: Value)
    ensures var out := Stored(s, i, v);
            |out| == (if i < |s| then |s| else i + 1) && out[i] == v &&
            forall k :: 0 <= k < |out| && k != i ==> out[k] == if k < |s| then s[k] else Nil
  {
  }

  /** Element by element: what stands before `beg` is kept, with nils behind a shorter array; then come the
      new elements, and then those of the old ones that stand behind the replaced ones. */
  lemma SplicedAt(s: seq<Value>, beg: nat, len: nat, rpl: seq<Value>)
    ensures var out, gone := Spliced(s, beg, len, rpl), if beg + len <= |s| then len else if beg <= |s| then |s| - beg else 0;
            |out| == (if beg <= |s| then |s| - gone else beg) + |rpl| &&
            (forall k :: 0 <= k < beg ==> out[k] == if k < |s| then s[k] else Nil) &&
            (forall k :: beg <= k < beg + |rpl| ==> out[k] == rpl[k - beg]) &&
            (forall k :: beg + |rpl| <= k < |out| ==> out[k] == s[k - |rpl| + gone])
  {
  }

  /** Putting back what a splice replaced gives the array back. */
  lemma SplicedBack(s: seq<Value>, beg: nat, len: nat, rpl: seq<Value>)
    requires beg <= |s|
    ensures Spliced(Spliced(s, beg, len, rpl), beg, |rpl|, Sliced(s, beg, len)) == s
  {
    SlicedAt(s, beg, len);
    var out := Spliced(s, beg, len, rpl);
    SplicedAt(s, beg, len, rpl);
    SplicedAt(out, beg, |rpl|, Sliced(s, beg, len));
  }

  /** Element by element: `len` elements from `beg` on, or as many as there are. */
  lemma SlicedAt(s: seq<Value>, beg: nat, len: nat)
    requires beg <= |s|
    ensures var out := Sliced(s, beg, len);
            |out| == (if beg + len <= |s| then len else |s| - beg) && forall k :: 0 <= k < |out| ==> out[k] == s[beg + k]
  {
  }

  class RArray {
    var ptr: array<Value>
    var off: nat
    var len: nat
    var aux: Aux

    ghost predicate Ok()
      reads this
    {
      match aux
      case Capa(capa) => off == 0 && len <= capa == ptr.Length
      case Shared(h) => ptr == h.ptr && off + len <= h.len <= h.capa == ptr.Length
    }

    ghost function Contents(): (s: seq<Value>)
      requires Ok()
      reads this, ptr
      ensures |s| == len
    {
      ptr[off..off + len]
    }

    /** ary_new: an empty array with room. */
    constructor (room: nat)
      ensures Ok() && aux.Capa? && len == 0 && Contents() == [] && fresh(ptr)
    {
      var n := if room == 0 then 1 else room;
      ptr, off, len, aux := new Value[n], 0, 0, Capa(n);
    }

    /** rb_ary_modify: before a write, a shared buffer is copied. */
    method Modify(ghost all: set<RArray>)
      requires this in all && Separate(all)
      modifies this
      ensures Separate(all) && aux.Capa? && Contents() == old(Contents()) && (ptr == old(ptr) || fresh(ptr))
      ensures old(aux.Capa?) ==> ptr == old(ptr) && aux == old(aux)
      ensures forall y :: y in all && y != this ==> y.Contents() == old(y.Contents())
    {
      if aux.Shared? {
        var copy := new Value[len];
        forall i | 0 <= i < len { copy[i] := ptr[off + i]; }
        ptr, off, aux := copy, 0, Capa(len);
      }
    }

    /** REALLOC_N on an own buffer. */
    method Realloc(capa: nat, ghost all: set<RArray>)
      requires this in all && Separate(all) && aux.Capa? && len <= capa
      modifies this
      ensures Separate(all) && aux == Capa(capa) && Contents() == old(Contents()) && fresh(ptr)
      ensures forall y :: y in all && y != this ==> y.Contents() == old(y.Contents())
    {
      var copy := new Value[capa];
      forall i | 0 <= i < len { copy[i] := ptr[i]; }
      ptr, aux := copy, Capa(capa);
    }

    /** The length is written, and nothing else. */
    method SetLen(n: nat, ghost all: set<RArray>)
      requires this in all && Separate(all) && aux.Capa? && n <= aux.capa
      modifies this`len
      ensures Separate(all) && len == n && aux.Capa? && Contents() == ptr[..n]
      ensures forall y :: y in all && y != this ==> y.Contents() == old(y.Contents())
    {
      len := n;
    }

    /** A new array keeps the rest separate, when it has a new buffer or looks into a shared one. */
    lemma OneMore(x: RArray, all: set<RArray>)
      requires this in all && Separate(all) && x.Ok() && x !in all
      requires (x.aux.Shared? && aux.Shared? && x.ptr == ptr) || (forall y :: y in all ==> y.ptr != x.ptr)
      ensures Separate(all + {x})
    {
    }

    lemma AllOk(all: set<RArray>)
      requires this in all && Separate(all)
      ensures forall y :: y in all ==> y.Ok()
    {
    }

    /** Nobody else looks at an own buffer. */
    lemma Alone(all: set<RArray>)
      requires this in all && Separate(all) && aux.Capa?
      ensures Ok() && forall y :: y in all && y != this ==> y.Ok() && y.ptr != ptr
    {
    }

    /** rb_ary_store; the result says whether the index was in range. */
    method Store(idx: int, val: Value, ghost all: set<RArray>) returns (ok: bool)
      requires this in all && Separate(all)
      modifies this, ptr
      ensures Separate(all) && aux.Capa? && (ptr == old(ptr) || fresh(ptr)) && ok == (old(Index(Contents(), idx)) >= 0)
      ensures Contents() == if ok then Stored(old(Contents()), old(Index(Contents(), idx)), val) else old(Contents())
      ensures forall y :: y in all && y != this ==> y.Contents() == old(y.Contents())
    {
      ghost var s := Contents();
      Modify(all);
      var i := idx;
      if i < 0 {
        i := i + len;
        if i < 0 { return false; }
      }
      if i >= aux.capa {
        var newCapa := aux.capa / 2;
        if newCapa < ARY_DEFAULT_SIZE { newCapa := ARY_DEFAULT_SIZE; }
        Realloc(newCapa + i, all);
      }
      StoreInRoom(i, val, s, all);
      ok := true;
    }

    /** The writes of rb_ary_store, when there is room. */
    method StoreInRoom(i: nat, val: Value, ghost s: seq<Value>, ghost all: set<RArray>)
      requires this in all && Separate(all) && aux.Capa? && i < aux.capa && Contents() == s
      modifies this, ptr
      ensures Separate(all) && Contents() == Stored(s, i, val) && ptr == old(ptr) && aux == old(aux)
      ensures forall y :: y in all && y != this ==> y.Contents() == old(y.Contents())
    {
      hide Separate;
      Alone(all);
      var n := if i >= len then i + 1 else len;
      StoreAt(ptr, len, i, val, s);
      SetLen(n, all);
    }

    /** rb_ary_push. */
    method Push(val: Value, ghost all: set<RArray>)
      requires this in all && Separate(all)
      modifies this, ptr
      ensures Separate(all) && Contents() == old(Contents()) + [val]
      ensures forall y :: y in all && y != this ==> y.Contents() == old(y.Contents())
      ensures ptr == old(ptr) || fresh(ptr)
    {
      ghost var s := Contents();
      var ok := Store(len, val, all);
      assert s + Nils(0) + [val] == s + [val];
    }

    /** rb_ary_pop. */
    method Pop(ghost all: set<RArray>) returns (v: Value)
      requires this in all && Separate(all)
      modifies this
      ensures Separate(all)
      ensures if old(len) == 0 then v == Nil && Contents() == [] else old(Contents()) == Contents() + [v]
      ensures forall y :: y in all && y != this ==> y.Contents() == old(y.Contents())
      ensures ptr == old(ptr) || fresh(ptr)
    {
      if len == 0 { return Nil; }
      if aux.Capa? && len * 2 < aux.capa && aux.capa > ARY_DEFAULT_SIZE {
        Realloc(len * 2, all);
      }
      len := len - 1;
      v := ptr[off + len];
    }

    /** ary_make_shared: the buffer is handed to a holder. */
    method MakeShared(ghost all: set<RArray>)
      requires this in all && Separate(all)
      modifies this
      ensures Separate(all) && aux.Shared? && Contents() == old(Contents()) && ptr == old(ptr) && off == old(off) && len == old(len)
      ensures forall y :: y in all && y != this ==> y.Contents() == old(y.Contents())
    {
      if aux.Capa? {
        var h := new Holder(ptr, len, aux.capa);
        aux := Shared(h);
      }
    }

    /** rb_ary_shift. */
    method Shift(ghost all: set<RArray>) returns (v: Value)
      requires this in all && Separate(all)
      modifies this
      ensures Separate(all)
      ensures if old(len) == 0 then v == Nil && Contents() == [] else old(Contents()) == [v] + Contents()
      ensures forall y :: y in all && y != this ==> y.Contents() == old(y.Contents())
      ensures ptr == old(ptr) || fresh(ptr)
    {
      if len == 0 { return Nil; }
      v := ptr[off];
      MakeShared(all);
      off, len := off + 1, len - 1;
    }

    /** rb_ary_unshift. */
    method Unshift(item: Value, ghost all: set<RArray>)
      requires this in all && Separate(all)
      modifies this, ptr
      ensures Separate(all) && Contents() == [item] + old(Contents())
      ensures forall y :: y in all && y != this ==> y.Contents() == old(y.Contents())
      ensures ptr == old(ptr) || fresh(ptr)
    {
      ghost var s := Contents();
      Modify(all);
      if len == aux.capa {
        var inc := aux.capa / 2;
        if inc < ARY_DEFAULT_SIZE { inc := ARY_DEFAULT_SIZE; }
        Realloc(aux.capa + inc, all);
      }
      SlideUp(1, all);
      FillFront([item], s, all);
    }

    /** The slots that sliding has opened are filled. */
    method FillFront(items: seq<Value>, ghost s: seq<Value>, ghost all: set<RArray>)
      requires this in all && Separate(all) && aux.Capa? && len + |items| <= aux.capa && ptr[|items|..|items| + len] == s
      modifies this, ptr
      ensures Separate(all) && Contents() == items + s && ptr == old(ptr)
      ensures forall y :: y in all && y != this ==> y.Contents() == old(y.Contents())
    {
      hide Separate;
      Alone(all);
      var n := len + |items|;
      forall k | 0 <= k < |items| { ptr[k] := items[k]; }
      assert ptr[..n] == items + s;
      SetLen(n, all);
    }

    /** MEMMOVE of all elements by `n` places. */
    method SlideUp(n: nat, ghost all: set<RArray>)
      requires this in all && Separate(all) && aux.Capa? && len + n <= aux.capa
      modifies ptr
      ensures Separate(all) && ptr[n..n + len] == old(Contents())
      ensures forall y :: y in all && y != this ==> y.Contents() == old(y.Contents())
    {
      forall k | 0 <= k < len { ptr[k + n] := ptr[k]; }
    }

    /** rb_ary_unshift_m: room is made by setting the last item. */
    method UnshiftAll(items: seq<Value>, ghost all: set<RArray>)
      requires this in all && Separate(all) && items != []
      modifies this, ptr
      ensures Separate(all) && Contents() == items + old(Contents())
      ensures forall y :: y in all && y != this ==> y.Contents() == old(y.Contents())
      ensures ptr == old(ptr) || fresh(ptr)
    {
      ghost var s := Contents();
      var n := len;
      var ok := Store(n + |items| - 1, Nil, all);
      ReplaceFront(items, n, s, all);
    }

    /** After a store the array owns its buffer. */
    method ReplaceFront(items: seq<Value>, n: nat, ghost s: seq<Value>, ghost all: set<RArray>)
      requires this in all && Separate(all) && aux.Capa? && |s| == n && len == n + |items| && Contents()[..n] == s
      modifies ptr
      ensures Separate(all) && Contents() == items + s
      ensures forall y :: y in all && y != this ==> y.Contents() == old(y.Contents())
    {
      assert Contents()[..n] == ptr[..n];
      forall k | 0 <= k < n { ptr[k + |items|] := ptr[k]; }
      forall k | 0 <= k < |items| { ptr[k] := items[k]; }
      assert Contents() == items + s;
    }

    /** rb_ary_subseq: a window into the same buffer. */
    method Subseq(beg: int, n: int, ghost all: set<RArray>) returns (r: Option<RArray>)
      requires this in all && Separate(all)
      modifies this
      ensures Separate(all) && Contents() == old(Contents())
      ensures r.None? <==> beg > len || beg < 0 || n < 0
      ensures r.Some? ==> fresh(r.value) && Separate(all + {r.value}) && r.value.Ok() && r.value.Contents() == Sliced(old(Contents()), beg, n)
      ensures forall y :: y in all && y != this ==> y.Contents() == old(y.Contents())
      ensures ptr == old(ptr) && (r.Some? ==> r.value.ptr == ptr || fresh(r.value.ptr))
    {
      hide Separate;
      AllOk(all);
      if beg > len || beg < 0 || n < 0 { return None; }
      var count := if beg + n > len then len - beg else n;
      if count == 0 {
        var empty := new RArray(0);
        OneMore(empty, all);
        AllOk(all);
        return Some(empty);
      }
      var window := Look(beg, count, all);
      AllOk(all);
      return Some(window);
    }

    /** A window into this array's buffer, which is shared from now on. */
    method Look(beg: nat, count: nat, ghost all: set<RArray>) returns (window: RArray)
      requires this in all && Separate(all) && beg + count <= len
      modifies this
      ensures Separate(all) && Contents() == old(Contents()) && ptr == old(ptr)
      ensures fresh(window) && Separate(all + {window}) && window.Ok() && window.Contents() == Contents()[beg..beg + count] && window.ptr == ptr
      ensures forall y :: y in all && y != this ==> y.Contents() == old(y.Contents())
    {
      hide Separate;
      AllOk(all);
      MakeShared(all);
      AllOk(all);
      window := new RArray.Window(ptr, off + beg, count, aux);
      OneMore(window, all);
    }

    /** An array that looks into a buffer that is shared already. */
    constructor Window(ptr: array<Value>, off: nat, len: nat, aux: Aux)
      ensures this.ptr == ptr && this.off == off && this.len == len && this.aux == aux
    {
      this.ptr, this.off, this.len, this.aux := ptr, off, len, aux;
    }

    /** rb_ary_replace: both arrays look at the same buffer afterwards. */
    method Replace(orig: RArray, ghost all: set<RArray>)
      requires this in all && orig in all && Separate(all)
      modifies this, orig
      ensures Separate(all) && Contents() == old(orig.Contents()) && orig.Contents() == old(orig.Contents())
      ensures forall y :: y in all && y != this ==> y.Contents() == old(y.Contents())
      ensures (ptr == old(orig.ptr) || fresh(ptr)) && (orig.ptr == old(orig.ptr) || fresh(orig.ptr))
    {
      Modify(all);
      if this == orig { return; }
      orig.MakeShared(all);
      LookAt(orig, all);
    }

    method LookAt(orig: RArray, ghost all: set<RArray>)
      requires this in all && orig in all && this != orig && Separate(all) && orig.aux.Shared?
      modifies this
      ensures Separate(all) && Contents() == orig.Contents() && ptr == orig.ptr
      ensures forall y :: y in all && y != this ==> y.Contents() == old(y.Contents())
    {
      ptr, off, len, aux := orig.ptr, orig.off, orig.len, orig.aux;
    }

    /** rb_ary_update: `n` elements from `beg` on are replaced by those of `rpl`, which may be the
        array itself. */
    method Update(beg: int, n: int, rpl: RArray, ghost all: set<RArray>) returns (ok: bool)
      requires this in all && rpl in all && Separate(all)
      modifies this, ptr
      ensures Separate(all) && ok == (n >= 0 && old(Index(Contents(), beg)) >= 0) && (ok ==> aux.Capa?)
      ensures Contents() == if ok then Spliced(old(Contents()), old(Index(Contents(), beg)), n, old(rpl.Contents())) else old(Contents())
      ensures forall y :: y in all && y != this ==> y.Contents() == old(y.Contents())
      ensures ptr == old(ptr) || fresh(ptr)
    {
      hide Separate, Spliced;
      AllOk(all);
      if n < 0 { return false; }
      var b := beg;
      if b < 0 {
        b := b + len;
        if b < 0 { return false; }
      }
      ghost var s, r := Contents(), rpl.Contents();
      Modify(all);
      AllOk(all);
      SplicedIs(s, b, n, r);
      if b >= len {
        SpliceBehind(b, rpl, s, r, all);
      } else {
        var m := if b + n > len then len - b else n;
        SpliceInside(b, m, rpl, s, r, all);
      }
      ok := true;
    }

    /** More room, when there is not enough. */
    method Reserve(n: nat, ghost all: set<RArray>)
      requires this in all && Separate(all) && aux.Capa?
      modifies this
      ensures Separate(all) && aux.Capa? && n <= aux.capa && Contents() == old(Contents()) && (ptr == old(ptr) || fresh(ptr))
      ensures forall y :: y in all ==> y.Contents() == old(y.Contents())
    {
      if n >= aux.capa { Realloc(n, all); }
    }

    method SpliceBehind(b: nat, rpl: RArray, ghost s: seq<Value>, ghost r: seq<Value>, ghost all: set<RArray>)
      requires this in all && rpl in all && Separate(all) && aux.Capa? && b >= len && Contents() == s && rpl.Contents() == r
      modifies this, ptr
      ensures Separate(all) && aux.Capa? && Contents() == s + Nils(b - |s|) + r
      ensures forall y :: y in all && y != this ==> y.Contents() == old(y.Contents())
      ensures ptr == old(ptr) || fresh(ptr)
    {
      hide Separate;
      Reserve(b + rpl.len, all);
      var newLen := b + rpl.len;
      Alone(all);
      WriteBehind(ptr, len, b, rpl.ptr, rpl.off, rpl.len, s, r);
      SetLen(newLen, all);
    }

    method SpliceInside(b: nat, m: nat, rpl: RArray, ghost s: seq<Value>, ghost r: seq<Value>, ghost all: set<RArray>)
      requires this in all && rpl in all && Separate(all) && aux.Capa? && b < len && b + m <= len && Contents() == s && rpl.Contents() == r
      modifies this, ptr
      ensures Separate(all) && aux.Capa? && Contents() == s[..b] + r + s[b + m..]
      ensures forall y :: y in all && y != this ==> y.Contents() == old(y.Contents())
      ensures ptr == old(ptr) || fresh(ptr)
    {
      hide Separate;
      var alen := len + rpl.len - m;
      Alone(all);
      Reserve(alen, all);
      Alone(all);
      WriteInside(ptr, len, b, m, rpl.ptr, rpl.off, rpl.len, s, r);
      SetLen(alen, all);
    }

    /** rb_ary_clear. */
    method Clear(ghost all: set<RArray>)
      requires this in all && Separate(all)
      modifies this
      ensures Separate(all) && Contents() == []
      ensures forall y :: y in all && y != this ==> y.Contents() == old(y.Contents())
      ensures ptr == old(ptr) || fresh(ptr)
    {
      hide Separate;
      Modify(all);
      Alone(all);
      SetLen(0, all);
      if ARY_DEFAULT_SIZE * 2 < aux.capa {
        Realloc(ARY_DEFAULT_SIZE * 2, all);
      }
    }

    /** rb_ary_delete_at. */
    method DeleteAt(at: int, ghost all: set<RArray>) returns (del: Value)
      requires this in all && Separate(all)
      modifies this, ptr
      ensures Separate(all)
      ensures var s, i := old(Contents()), old(Index(Contents(), at));
              if 0 <= i < |s| then del == s[i] && Contents() == s[..i] + s[i + 1..] else del == Nil && Contents() == s
      ensures forall y :: y in all && y != this ==> y.Contents() == old(y.Contents())
      ensures ptr == old(ptr) || fresh(ptr)
    {
      ghost var s := Contents();
      Modify(all);
      var pos := at;
      if pos >= len { return Nil; }
      if pos < 0 {
        pos := pos + len;
        if pos < 0 { return Nil; }
      }
      del := CloseGap(pos, s, all);
    }

    /** The loop of rb_ary_delete_at. */
    method CloseGap(from: nat, ghost s: seq<Value>, ghost all: set<RArray>) returns (del: Value)
      requires this in all && Separate(all) && aux.Capa? && from < len && Contents() == s
      modifies this, ptr
      ensures Separate(all) && del == s[from] && Contents() == s[..from] + s[from + 1..]
      ensures forall y :: y in all && y != this ==> y.Contents() == old(y.Contents())
      ensures ptr == old(ptr)
    {
      hide Separate;
      Alone(all);
      var n := len - 1;
      del := ptr[from];
      MoveDown(ptr, from, len, s);
      SetLen(n, all);
    }
  }

  method MoveDown(ptr: array<Value>, from: nat, len: nat, ghost s: seq<Value>)
    requires from < len <= ptr.Length && ptr[..len] == s
    modifies ptr
    ensures ptr[..len - 1] == s[..from] + s[from + 1..]
  {
    var pos, i := from, from + 1;
    while i < len
      invariant from < i <= len && pos == i - 1
      invariant ptr[..pos] == s[..from] + s[from + 1..i] && ptr[i..len] == s[i..]
    {
      assert ptr[i] == s[i];
      ptr[pos] := ptr[i];
      i, pos := i + 1, pos + 1;
    }
  }

  /** MEMMOVE. */
  method CopyInto(dst: array<Value>, to: nat, src: array<Value>, from: nat, n: nat)
    requires to + n <= dst.Length && from + n <= src.Length
    modifies dst
    ensures dst[..to] == old(dst[..to]) && dst[to + n..] == old(dst[to + n..])
    ensures dst[to..to + n] == old(src[from..from + n])
  {
    forall k | 0 <= k < n { dst[to + k] := src[from + k]; }
  }

  /** The writes of rb_ary_update behind the end: nils up to `b`, and then the new elements. */
  method WriteBehind(ptr: array<Value>, len: nat, b: nat, src: array<Value>, from: nat, rlen: nat, ghost s: seq<Value>, ghost r: seq<Value>)
    requires len <= b && b + rlen <= ptr.Length && from + rlen <= src.Length && ptr[..len] == s && src[from..from + rlen] == r
    requires src == ptr ==> from + rlen <= len
    modifies ptr
    ensures ptr[..b + rlen] == s + Nils(b - |s|) + r
  {
    forall k | len <= k < b { ptr[k] := Nil; }
    assert src[from..from + rlen] == r;
    assert ptr[..b] == s + Nils(b - |s|);
    CopyInto(ptr, b, src, from, rlen);
    assert ptr[..b + rlen] == ptr[..b] + ptr[b..b + rlen];
  }

  /** The writes of rb_ary_update inside: the tail is moved first, then the new elements come. Where
      the array replaces a part of itself, its old elements are all still in place by then. */
  method WriteInside(ptr: array<Value>, len: nat, b: nat, m: nat, src: array<Value>, from: nat, rlen: nat, ghost s: seq<Value>, ghost r: seq<Value>)
    requires b + m <= len <= ptr.Length && len + rlen - m <= ptr.Length && from + rlen <= src.Length
    requires ptr[..len] == s && src[from..from + rlen] == r && (src == ptr ==> from == 0 && rlen == len)
    modifies ptr
    ensures ptr[..len + rlen - m] == s[..b] + r + s[b + m..]
  {
    ghost var tail, end, first := s[b + m..], len + rlen - m, ptr[..];
    assert first[..len] == s;
    TailOf(first, s, len, b + m);
    if m != rlen {
      CopyInto(ptr, b + rlen, ptr, b + m, len - (b + m));
    }
    ghost var before := ptr[..];
    TailMoved(first, before, s, b, m, rlen, len);
    assert src[from..from + rlen] == r by {
      if src == ptr { FrontKept(first, before, b, m, rlen); }
    }
    CopyInto(ptr, b, src, from, rlen);
    Assembled(before, ptr[..], b, rlen, end, s[..b], r, tail);
  }

  lemma TailOf(first: seq<Value>, s: seq<Value>, len: nat, from: nat)
    requires from <= len <= |first| && first[..len] == s
    ensures first[from..len] == s[from..]
  {
  }

  /** Where the elements stand after the tail was moved. */
  lemma TailMoved(first: seq<Value>, before: seq<Value>, s: seq<Value>, b: nat, m: nat, rlen: nat, len: nat)
    requires b + m <= len <= |first| == |before| && len + rlen - m <= |first| && first[..len] == s
    requires if m == rlen then before == first
             else before[..b + rlen] == first[..b + rlen] && before[b + rlen..b + rlen + (len - (b + m))] == first[b + m..len]
    ensures before[..b] == s[..b] && before[b + rlen..len + rlen - m] == s[b + m..]
  {
    TailOf(first, s, len, b + m);
    assert first[..b] == s[..b];
    if m != rlen {
      assert before[..b] == before[..b + rlen][..b];
    }
  }

  lemma FrontKept(first: seq<Value>, before: seq<Value>, b: nat, m: nat, rlen: nat)
    requires b + rlen <= |first| == |before|
    requires m != rlen ==> before[..b + rlen] == first[..b + rlen]
    requires m == rlen ==> before == first
    ensures before[..rlen] == first[..rlen]
  {
    if m != rlen { assert before[..rlen] == before[..b + rlen][..rlen]; }
  }

  lemma Assembled(before: seq<Value>, after: seq<Value>, b: nat, rlen: nat, end: nat, front: seq<Value>, r: seq<Value>, tail: seq<Value>)
    requires b + rlen <= end <= |before| == |after| && before[..b] == front && before[b + rlen..end] == tail
    requires after[..b] == before[..b] && after[b + rlen..] == before[b + rlen..] && after[b..b + rlen] == r
    ensures after[..end] == front + r + tail
  {
    assert after[b + rlen..end] == after[b + rlen..][..end - (b + rlen)];
    assert before[b + rlen..end] == before[b + rlen..][..end - (b + rlen)];
    assert after[..end] == after[..b] + after[b..b + rlen] + after[b + rlen..end];
  }

  /** The writes of rb_ary_store. */
  method StoreAt(ptr: array<Value>, len: nat, i: nat, val: Value, ghost s: seq<Value>)
    requires len <= ptr.Length && i < ptr.Length && ptr[..len] == s
    modifies ptr
    ensures ptr[..if i >= len then i + 1 else len] == Stored(s, i, val)
  {
    if i > len {
      forall k | len <= k <= i { ptr[k] := Nil; }
    }
    ptr[i] := val;
  }

  lemma SplicedIs(s: seq<Value>, b: nat, n: nat, r: seq<Value>)
    ensures b >= |s| ==> Spliced(s, b, n, r) == s + Nils(b - |s|) + r
    ensures b < |s| ==> Spliced(s, b, n, r) == s[..b] + r + s[b + (if b + n > |s| then |s| - b else n)..]
  {
  }
}
