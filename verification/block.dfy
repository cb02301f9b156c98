/**
 The script loader's growable accumulation buffer (`struct block_s` with
 `block_append` and `block_clear`).

 Storage is a sequence of heap cells. A cell obtained from `malloc` or from the
 grown part of a `realloc` and never written since is `Indeterminate`; every
 write stores a `Byte`. The text a consumer reads out of the buffer is its
 written prefix: the longest run of non-NUL bytes from index 0
 (`LiveText`). What a C reader would find past that prefix is not modelled.
 */
module Block {
  import opened CStrings

  /** One byte of heap storage. */
  datatype Cell = Indeterminate | Byte(c: char)

  /** A cell that a C-string reader would take as part of the text. */
  predicate IsText(x: Cell)
  {
    x.Byte? && x.c != '\0'
  }

  /**
   `last_cap`, `capacity`, `size` and the storage `data`; `data` is `[]` while
   nothing has been allocated (`data == NULL`).
   */
  datatype Block = Block(lastCap: nat, capacity: nat, size: nat, data: seq<Cell>)

  /** The block as `eval_script` declares it: all fields zero, storage NULL. */
  const Fresh: Block := Block(0, 0, 0, [])

  /** The representation invariant: `size <= capacity` and storage of exactly `capacity` cells. */
  predicate Valid(b: Block)
  {
    b.size <= b.capacity && |b.data| == b.capacity
  }

  /** Freshly allocated storage of `n` cells. */
  function Uninit(n: nat): (r: seq<Cell>)
    ensures |r| == n
  {
    if n == 0 then [] else Uninit(n - 1) + [Indeterminate]
  }

  /** Every freshly allocated cell is indeterminate. */
  lemma {:induction false} UninitCells(n: nat)
    ensures forall i :: 0 <= i < n ==> Uninit(n)[i] == Indeterminate
  {
    if n > 0 {
      UninitCells(n - 1);
    }
  }

  /** `realloc` to a size at least the old one. */
  function Realloc(d: seq<Cell>, n: nat): (r: seq<Cell>)
    requires |d| <= n
    ensures |r| == n
  {
    d + Uninit(n - |d|)
  }

  /** `realloc` keeps the old cells and adds indeterminate ones. */
  lemma ReallocCells(d: seq<Cell>, n: nat)
    requires |d| <= n
    ensures forall i :: 0 <= i < |d| ==> Realloc(d, n)[i] == d[i]
    ensures forall i :: |d| <= i < n ==> Realloc(d, n)[i] == Indeterminate
  {
    UninitCells(n - |d|);
  }

  /** `memcpy(&d[off], t, |t|)`. */
  function Memcpy(d: seq<Cell>, off: nat, t: seq<char>): (r: seq<Cell>)
    requires off + |t| <= |d|
    ensures |r| == |d|
    decreases |t|
  {
    if t == [] then d else Memcpy(d[off := Byte(t[0])], off + 1, t[1..])
  }

  /** `memcpy` writes the text at `off` and leaves every other cell alone. */
  lemma {:induction false} MemcpyCells(d: seq<Cell>, off: nat, t: seq<char>)
    requires off + |t| <= |d|
    ensures forall i :: off <= i < off + |t| ==> Memcpy(d, off, t)[i] == Byte(t[i - off])
    ensures forall i :: 0 <= i < |d| && !(off <= i < off + |t|) ==> Memcpy(d, off, t)[i] == d[i]
    decreases |t|
  {
    if t != [] {
      var d1 := d[off := Byte(t[0])];
      MemcpyCells(d1, off + 1, t[1..]);
      forall i | off + 1 <= i < off + |t|
        ensures Memcpy(d, off, t)[i] == Byte(t[i - off])
      {
        assert t[1..][i - (off + 1)] == t[i - off];
      }
    }
  }

  /**
   The growth loop `while (capacity < need) capacity += capacity + 1`: the
   result is large enough, and it is the first value of the sequence
   cap, 2cap+1, 2(2cap+1)+1, ... that is; the value before it was too small.
   */
  function Grow(cap: nat, need: nat): (r: nat)
    requires cap > 0
    ensures need <= r && cap <= r
    ensures r == cap || cap <= (r - 1) / 2 < need
    decreases need - cap
  {
    if need <= cap then cap else Grow(2 * cap + 1, need)
  }

  function Pow2(k: nat): (r: nat)
    ensures r >= 1
  {
    if k == 0 then 1 else 2 * Pow2(k - 1)
  }

  /** How many times the growth loop runs. */
  function Doublings(cap: nat, need: nat): nat
    requires cap > 0
    decreases need - cap
  {
    if need <= cap then 0 else 1 + Doublings(2 * cap + 1, need)
  }

  /** Each round of growth maps c+1 to 2(c+1), so growth multiplies capacity+1 by a power of two. */
  lemma {:induction false} GrowShape(cap: nat, need: nat)
    requires cap > 0
    ensures Grow(cap, need) + 1 == (cap + 1) * Pow2(Doublings(cap, need))
    decreases need - cap
  {
    if need > cap {
      var p := Pow2(Doublings(2 * cap + 1, need));
      GrowShape(2 * cap + 1, need);
      assert Pow2(Doublings(cap, need)) == 2 * p;
      Twice(cap + 1, p);
    }
  }

  lemma Twice(a: nat, p: nat)
    ensures (2 * a) * p == a * (2 * p)
  {
  }

  /** The capacity after `block_append`'s sizing step for a text of length `n`. */
  function NewCapacity(b: Block, n: nat): (r: nat)
    ensures b.size + n <= r && b.capacity <= r && 0 < r
  {
    Grow(if b.capacity == 0 then n + 1 else b.capacity, b.size + n)
  }

  /** The storage after the sizing step: `malloc` on first use, `realloc` only when capacity grew. */
  function Storage(b: Block, n: nat): (r: seq<Cell>)
    requires Valid(b)
    ensures |r| == NewCapacity(b, n)
  {
    var cap := NewCapacity(b, n);
    var d := if b.capacity == 0 then Uninit(n + 1) else b.data;
    if b.capacity < cap then Realloc(d, cap) else d
  }

  /** The sized storage keeps the old cells; every cell beyond the old capacity is indeterminate. */
  lemma StorageCells(b: Block, n: nat)
    requires Valid(b)
    ensures forall i :: 0 <= i < b.capacity ==> Storage(b, n)[i] == b.data[i]
    ensures forall i :: b.capacity <= i < NewCapacity(b, n) ==> Storage(b, n)[i] == Indeterminate
  {
    var cap := NewCapacity(b, n);
    if b.capacity == 0 {
      UninitCells(n + 1);
      ReallocCells(Uninit(n + 1), cap);
    } else if b.capacity < cap {
      ReallocCells(b.data, cap);
    }
  }

  /** The common body of both append variants: size the storage, then copy `t` to `off`. */
  function Place(b: Block, t: seq<char>, off: nat): (r: Block)
    requires Valid(b) && off <= b.size
  {
    Block(b.capacity, NewCapacity(b, |t|), b.size + |t|, Memcpy(Storage(b, |t|), off, t))
  }

  /** The cells after `Place`: the text at `off`, every other old cell kept, every new one indeterminate. */
  lemma PlaceCells(b: Block, t: seq<char>, off: nat)
    requires Valid(b) && off <= b.size
    ensures var d := Place(b, t, off).data;
      && off + |t| <= |d|
      && (forall i :: off <= i < off + |t| ==> d[i] == Byte(t[i - off]))
      && (forall i :: 0 <= i < b.capacity && !(off <= i < off + |t|) ==> d[i] == b.data[i])
      && (forall i :: b.capacity <= i < |d| && !(off <= i < off + |t|) ==> d[i] == Indeterminate)
  {
    StorageCells(b, |t|);
    MemcpyCells(Storage(b, |t|), off, t);
  }

  /** Where `block_append` copies the new text: `size - 1` once the block is non-empty. */
  function Offset(size: nat): nat
  {
    if size > 0 then size - 1 else 0
  }

  /**
   `block_append` as written. A NULL string changes nothing. Otherwise `size`
   grows by `strlen`, capacity starts at `strlen + 1` on first use and
   otherwise grows by doubling-plus-one, and never shrinks; the previous
   capacity is remembered. Where the text lands is `AppendCells`.
   */
  function Append(b: Block, s: Option<seq<char>>): (r: Block)
    requires Valid(b)
    ensures Valid(r)
    ensures s.None? ==> r == b
    ensures s.Some? ==>
      var t := CStr(s.value);
      && r.size == b.size + |t|
      && r.lastCap == b.capacity
      && b.capacity <= r.capacity
      && (b.capacity == 0 ==> r.capacity == |t| + 1)
      && (b.capacity > 0 ==> r.capacity == Grow(b.capacity, b.size + |t|))
  {
    match s
    case None => b
    case Some(str) => Place(b, CStr(str), Offset(b.size))
  }

  /**
   The cells after `block_append` as written: the text lands at
   `Offset(size)`, one cell before the end of the previous content, every
   other old cell keeps its value and every newly allocated one is
   indeterminate.
   */
  lemma AppendCells(b: Block, s: seq<char>)
    requires Valid(b)
    ensures var r := Append(b, Some(s));
      var t := CStr(s);
      var off := Offset(b.size);
      && off + |t| <= r.capacity
      && (forall i :: off <= i < off + |t| ==> r.data[i] == Byte(t[i - off]))
      && (forall i :: 0 <= i < b.capacity && !(off <= i < off + |t|) ==> r.data[i] == b.data[i])
      && (forall i :: b.capacity <= i < r.capacity && !(off <= i < off + |t|) ==> r.data[i] == Indeterminate)
  {
    var t := CStr(s);
    PlaceCells(b, t, Offset(b.size));
  }

  /**
   `block_append` with the copy offset corrected to `size`. Sizes and
   capacities are those of `Append`.
   */
  function AppendFixed(b: Block, s: Option<seq<char>>): (r: Block)
    requires Valid(b)
    ensures Valid(r)
    ensures s.None? ==> r == b
    ensures s.Some? ==>
      && r.size == b.size + |CStr(s.value)|
      && r.capacity == NewCapacity(b, |CStr(s.value)|)
  {
    match s
    case None => b
    case Some(str) => Place(b, CStr(str), b.size)
  }

  /** The cells after the corrected append: the text lands right after the previous content. */
  lemma AppendFixedCells(b: Block, s: seq<char>)
    requires Valid(b)
    ensures var r := AppendFixed(b, Some(s));
      var t := CStr(s);
      && (forall i :: b.size <= i < b.size + |t| ==> r.data[i] == Byte(t[i - b.size]))
      && (forall i :: 0 <= i < b.capacity && !(b.size <= i < b.size + |t|) ==> r.data[i] == b.data[i])
      && (forall i :: b.capacity <= i < r.capacity && !(b.size <= i < b.size + |t|) ==> r.data[i] == Indeterminate)
  {
    var t := CStr(s);
    PlaceCells(b, t, b.size);
  }

  /**
   `block_clear`: the first `size` cells become NUL, `size` drops to 0, and the
   capacity, the storage and every cell past the old `size` are kept.
   */
  function Clear(b: Block): (r: Block)
    requires Valid(b)
    ensures Valid(r)
    ensures r.size == 0 && r.capacity == b.capacity && r.lastCap == b.lastCap
    ensures forall i :: 0 <= i < b.size ==> r.data[i] == Byte('\0')
    ensures forall i :: b.size <= i < |b.data| ==> r.data[i] == b.data[i]
  {
    b.(size := 0, data := Zeroed(b.data, b.size))
  }

  /** `memset(d, 0, n)`. */
  function Zeroed(d: seq<Cell>, n: nat): (r: seq<Cell>)
    requires n <= |d|
    ensures |r| == |d|
    ensures forall i :: 0 <= i < n ==> r[i] == Byte('\0')
    ensures forall i :: n <= i < |d| ==> r[i] == d[i]
  {
    if n == 0 then d else Zeroed(d, n - 1)[n - 1 := Byte('\0')]
  }

  /** Clearing an empty block changes nothing, so clearing twice is clearing once. */
  lemma ClearIdempotent(b: Block)
    requires Valid(b)
    ensures b.size == 0 ==> Clear(b) == b
    ensures Clear(Clear(b)) == Clear(b)
  {
    assert Clear(b).data[0..] == Clear(b).data;
    assert b.data[0..] == b.data;
  }

  /** The written prefix: the longest run of non-NUL bytes from index 0. */
  function LiveText(d: seq<Cell>): (r: seq<char>)
    ensures |r| <= |d|
    ensures forall i :: 0 <= i < |r| ==> d[i] == Byte(r[i]) && r[i] != '\0'
    ensures |r| < |d| ==> !IsText(d[|r|])
  {
    if |d| == 0 || !IsText(d[0]) then [] else [d[0].c] + LiveText(d[1..])
  }

  /** The written prefix is determined by the first non-text cell. */
  lemma LiveTextIs(d: seq<Cell>, t: seq<char>)
    requires |t| <= |d|
    requires forall i :: 0 <= i < |t| ==> d[i] == Byte(t[i]) && t[i] != '\0'
    requires |t| < |d| ==> !IsText(d[|t|])
    ensures LiveText(d) == t
  {
    var r := LiveText(d);
    var m := if |r| < |t| then |r| else |t|;
    assert m < |d| ==> !IsText(d[m]);
    assert |r| == |t|;
  }

  /**
   The shape every reachable block has: the written prefix is followed only
   by cells a reader would not take as text, and it is `size` long after a
   single append or `size - 1` long after more than one.
   */
  predicate Tidy(b: Block)
  {
    && Valid(b)
    && (forall i :: |LiveText(b.data)| <= i < |b.data| ==> !IsText(b.data[i]))
    && (b.size == 0 ==> |LiveText(b.data)| == 0)
    && (b.size > 0 ==> b.size - 1 <= |LiveText(b.data)| <= b.size)
  }

  /** The shape the corrected append keeps: the written prefix is exactly `size` long. */
  predicate Packed(b: Block)
  {
    && Valid(b)
    && (forall i :: |LiveText(b.data)| <= i < |b.data| ==> !IsText(b.data[i]))
    && |LiveText(b.data)| == b.size
  }

  lemma FreshIsTidy()
    ensures Tidy(Fresh) && Packed(Fresh)
  {
  }

  /**
   The written prefix after one as-written append of `t` to a block of size
   `size` whose written prefix is `l`: on an empty block the text becomes the
   whole content; an empty text changes nothing; otherwise everything from
   index `size - 1` on is replaced by the text.
   */
  function AfterAppend(l: seq<char>, size: nat, t: seq<char>): (r: seq<char>)
    requires size <= |l| + 1
    ensures size + |t| <= |r| + 1
  {
    if size == 0 then t else if t == [] then l else l[..size - 1] + t
  }

  /**
   One as-written append onto a reachable block. On an empty block the text
   becomes the whole content; an empty text changes nothing; otherwise the
   previous content loses everything from index `size - 1` on, which is its
   last character right after the first append.
   */
  lemma AppendLive(b: Block, s: seq<char>)
    requires Tidy(b)
    ensures Tidy(Append(b, Some(s)))
    ensures LiveText(Append(b, Some(s)).data) == AfterAppend(LiveText(b.data), b.size, CStr(s))
  {
    AppendCells(b, s);
    LiveAfterCopy(b, Append(b, Some(s)), CStr(s));
  }

  /** `AppendLive` for any block whose cells are those `AppendCells` describes. */
  lemma LiveAfterCopy(b: Block, r: Block, t: seq<char>)
    requires Tidy(b) && Valid(r) && '\0' !in t
    requires r.size == b.size + |t| && b.capacity <= r.capacity
    requires var off := Offset(b.size);
      && off + |t| <= r.capacity
      && (forall i :: off <= i < off + |t| ==> r.data[i] == Byte(t[i - off]))
      && (forall i :: 0 <= i < b.capacity && !(off <= i < off + |t|) ==> r.data[i] == b.data[i])
      && (forall i :: b.capacity <= i < r.capacity && !(off <= i < off + |t|) ==> r.data[i] == Indeterminate)
    ensures Tidy(r)
    ensures LiveText(r.data) == AfterAppend(LiveText(b.data), b.size, t)
  {
    var old_ := LiveText(b.data);
    var off := Offset(b.size);
    assert forall k :: 0 <= k < |t| ==> t[k] in t;
    if b.size > 0 && t == [] {
      forall i | |old_| <= i < |r.data|
        ensures !IsText(r.data[i])
      {
        if i < b.capacity {
          assert r.data[i] == b.data[i];
        }
      }
      LiveTextIs(r.data, old_);
    } else {
      var e := if b.size == 0 then t else old_[..b.size - 1] + t;
      assert |e| == off + |t|;
      forall i | 0 <= i < |e|
        ensures r.data[i] == Byte(e[i]) && e[i] != '\0'
      {
        if i >= off {
          assert e[i] == t[i - off];
        } else {
          assert e[i] == old_[i];
        }
      }
      forall i | |e| <= i < |r.data|
        ensures !IsText(r.data[i])
      {
        if i < b.capacity {
          assert r.data[i] == b.data[i];
        }
      }
      LiveTextIs(r.data, e);
    }
  }


  /** One corrected append onto a packed block extends the content by the text. */
  lemma AppendFixedLive(b: Block, s: seq<char>)
    requires Packed(b)
    ensures Packed(AppendFixed(b, Some(s)))
    ensures LiveText(AppendFixed(b, Some(s)).data) == LiveText(b.data) + CStr(s)
  {
    AppendFixedCells(b, s);
    LiveAfterFixedCopy(b, AppendFixed(b, Some(s)), CStr(s));
  }

  /** `AppendFixedLive` for any block whose cells are those `AppendFixedCells` describes. */
  lemma LiveAfterFixedCopy(b: Block, r: Block, t: seq<char>)
    requires Packed(b) && Valid(r) && '\0' !in t
    requires r.size == b.size + |t| && b.capacity <= r.capacity
    requires forall i :: b.size <= i < b.size + |t| ==> r.data[i] == Byte(t[i - b.size])
    requires forall i :: 0 <= i < b.capacity && !(b.size <= i < b.size + |t|) ==> r.data[i] == b.data[i]
    requires forall i :: b.capacity <= i < r.capacity && !(b.size <= i < b.size + |t|) ==> r.data[i] == Indeterminate
    ensures Packed(r)
    ensures LiveText(r.data) == LiveText(b.data) + t
  {
    var e := LiveText(b.data) + t;
    assert forall k :: 0 <= k < |t| ==> t[k] in t;
    forall i | 0 <= i < |e|
      ensures r.data[i] == Byte(e[i]) && e[i] != '\0'
    {
      if i >= b.size {
        assert e[i] == t[i - b.size];
      }
    }
    forall i | |e| <= i < |r.data|
      ensures !IsText(r.data[i])
    {
      if i < b.capacity {
        assert r.data[i] == b.data[i];
      }
    }
    LiveTextIs(r.data, e);
  }


  /** The two copy offsets: as written in the source, and corrected. */
  datatype Variant = AsWritten | Corrected

  /** Appends each text in turn, as `eval_script` does with the lines of one block. */
  function AppendAll(b: Block, ts: seq<seq<char>>): (r: Block)
    requires Valid(b)
    decreases |ts|
    ensures Valid(r)
    ensures r.size == b.size + |Joined(ts)|
    ensures b.capacity <= r.capacity
  {
    if ts == [] then b else AppendAll(Append(b, Some(ts[0])), ts[1..])
  }

  /** `AppendAll` with the corrected copy offset. */
  function AppendAllFixed(b: Block, ts: seq<seq<char>>): (r: Block)
    requires Valid(b)
    decreases |ts|
    ensures Valid(r)
    ensures r.size == b.size + |Joined(ts)|
    ensures b.capacity <= r.capacity
  {
    if ts == [] then b else AppendAllFixed(AppendFixed(b, Some(ts[0])), ts[1..])
  }

  /** The C-string views of `ts`, concatenated. */
  function Joined(ts: seq<seq<char>>): (r: seq<char>)
  {
    if ts == [] then [] else CStr(ts[0]) + Joined(ts[1..])
  }

  /**
   What the as-written buffer holds after `ts` are appended to an empty block:
   their concatenation, except that the first non-empty text loses its last
   character as soon as any further character is appended.
   */
  function Spliced(ts: seq<seq<char>>): seq<char>
  {
    if ts == [] then []
    else if CStr(ts[0]) == [] then Spliced(ts[1..])
    else if Joined(ts[1..]) == [] then CStr(ts[0])
    else CStr(ts[0])[..|CStr(ts[0])| - 1] + Joined(ts[1..])
  }

  /**
   The as-written unit differs from the concatenation exactly by the last
   character of the first text, whenever that text is non-empty and more
   text follows it.
   */
  lemma SplicedLosesOne(ts: seq<seq<char>>)
    requires ts != [] && CStr(ts[0]) != [] && Joined(ts[1..]) != []
    ensures var k := |CStr(ts[0])| - 1;
      && k < |Joined(ts)|
      && Spliced(ts) == Joined(ts)[..k] + Joined(ts)[k + 1..]
      && Spliced(ts) != Joined(ts)
  {
    var c := CStr(ts[0]);
    var k := |c| - 1;
    assert Joined(ts) == c + Joined(ts[1..]);
    assert Joined(ts)[..k] == c[..k];
    assert Joined(ts)[k + 1..] == Joined(ts[1..]);
  }

  /**
   The written prefix after as-written appends of `ts`, starting from the
   prefix `l` of a block of size `size`: each text replaces everything from
   index `size - 1` on, or is the whole content when the block was empty.
   */
  function Content(l: seq<char>, size: nat, ts: seq<seq<char>>): seq<char>
    requires size <= |l| + 1
    decreases |ts|
  {
    if ts == [] then l
    else
      var t := CStr(ts[0]);
      Content(AfterAppend(l, size, t), size + |t|, ts[1..])
  }

  /** As-written appends keep a block reachable. */
  lemma {:induction false} AppendAllTidy(b: Block, ts: seq<seq<char>>)
    requires Tidy(b)
    ensures Tidy(AppendAll(b, ts))
    decreases |ts|
  {
    if ts != [] {
      AppendLive(b, ts[0]);
      AppendAllTidy(Append(b, Some(ts[0])), ts[1..]);
    }
  }

  /** The written prefix after as-written appends is `Content`. */
  lemma {:induction false} AppendAllLive(b: Block, ts: seq<seq<char>>)
    requires Tidy(b)
    ensures LiveText(AppendAll(b, ts).data) == Content(LiveText(b.data), b.size, ts)
    decreases |ts|
  {
    if ts != [] {
      var b1 := Append(b, Some(ts[0]));
      AppendLive(b, ts[0]);
      AppendAllLive(b1, ts[1..]);
      ContentStep(LiveText(b.data), b.size, ts, LiveText(b1.data), b1.size);
    }
  }

  /** Unfolding `Content` once, onto the content and size one append leaves. */
  lemma ContentStep(l: seq<char>, size: nat, ts: seq<seq<char>>, l1: seq<char>, size1: nat)
    requires size <= |l| + 1 && ts != []
    requires l1 == AfterAppend(l, size, CStr(ts[0])) && size1 == size + |CStr(ts[0])|
    ensures size1 <= |l1| + 1
    ensures Content(l, size, ts) == Content(l1, size1, ts[1..])
  {
  }

  /**
   The sequence step behind `ContentOnto`: `l` is the content before an
   append of `t` at `n`, `l1` after it, and `r` the content once the texts
   that make up `rest` have followed at `m`.
   */
  lemma OntoStep(l: seq<char>, n: nat, t: seq<char>, l1: seq<char>, m: nat, rest: seq<char>, r: seq<char>)
    requires n <= |l| && m == n + |t|
    requires l1 == if t == [] then l else l[..n] + t
    requires r == if rest == [] then l1 else l1[..m] + rest
    ensures r == if t + rest == [] then l else l[..n] + (t + rest)
  {
    if t != [] {
      assert l1[..n + |t|] == l1;
      assert t + [] == t;
    }
  }

  /** Appends onto a non-empty block: the old content is cut at `size - 1`, then everything follows contiguously. */
  lemma {:induction false} ContentOnto(l: seq<char>, size: nat, ts: seq<seq<char>>)
    requires 1 <= size <= |l| + 1
    ensures Content(l, size, ts) == if Joined(ts) == [] then l else l[..size - 1] + Joined(ts)
    decreases |ts|
  {
    if ts != [] {
      var t := CStr(ts[0]);
      var l1 := if t == [] then l else l[..size - 1] + t;
      ContentOnto(l1, size + |t|, ts[1..]);
      JoinedCons(ts, []);
      OntoStep(l, size - 1, t, l1, size + |t| - 1, Joined(ts[1..]), Content(l1, size + |t|, ts[1..]));
    }
  }

  /** From an empty block, the content is `Spliced`. */
  lemma {:induction false} ContentSpliced(ts: seq<seq<char>>)
    ensures Content([], 0, ts) == Spliced(ts)
    decreases |ts|
  {
    if ts != [] {
      var t := CStr(ts[0]);
      if t == [] {
        ContentSpliced(ts[1..]);
      } else {
        ContentOnto(t, |t|, ts[1..]);
      }
    }
  }

  /** The unit the as-written buffer yields for a block: `Spliced`. */
  lemma AppendAllSpliced(b: Block, ts: seq<seq<char>>)
    requires Tidy(b) && b.size == 0
    ensures Tidy(AppendAll(b, ts))
    ensures LiveText(AppendAll(b, ts).data) == Spliced(ts)
  {
    AppendAllTidy(b, ts);
    AppendAllLive(b, ts);
    ContentSpliced(ts);
  }

  /** Unfolding `Joined` once, in front of a fixed prefix. */
  lemma JoinedCons(ts: seq<seq<char>>, l: seq<char>)
    requires ts != []
    ensures Joined(ts) == CStr(ts[0]) + Joined(ts[1..])
    ensures l + Joined(ts) == (l + CStr(ts[0])) + Joined(ts[1..])
  {
  }

  /** The unit the corrected buffer yields for a block: the plain concatenation. */
  lemma {:induction false} AppendAllFixedJoined(b: Block, ts: seq<seq<char>>)
    requires Packed(b)
    ensures Packed(AppendAllFixed(b, ts))
    ensures LiveText(AppendAllFixed(b, ts).data) == LiveText(b.data) + Joined(ts)
    decreases |ts|
  {
    if ts != [] {
      var b1 := AppendFixed(b, Some(ts[0]));
      var l := LiveText(b.data);
      assert AppendAllFixed(b, ts) == AppendAllFixed(b1, ts[1..]);
      assert Packed(b1) && LiveText(b1.data) == l + CStr(ts[0]) by {
        AppendFixedLive(b, ts[0]);
      }
      AppendAllFixedJoined(b1, ts[1..]);
      JoinedCons(ts, l);
    }
  }

  /** Clearing a reachable block leaves it reachable and empty for either variant. */
  lemma ClearTidy(b: Block)
    requires Tidy(b) || Packed(b)
    ensures Tidy(Clear(b)) && Packed(Clear(b))
    ensures LiveText(Clear(b).data) == []
  {
    var r := Clear(b);
    if |r.data| > 0 {
      if b.size > 0 {
        assert !IsText(r.data[0]);
      } else {
        assert r.data[0] == b.data[0];
      }
    }
    LiveTextIs(r.data, []);
    forall i | 0 <= i < |r.data|
      ensures !IsText(r.data[i])
    {
      if i >= b.size {
        assert r.data[i] == b.data[i];
      }
    }
  }

  /**
   The growth loop of `block_append` as a `while` over `capacity`. The
   capacity is an unbounded `nat`; `size_t` overflow is not modelled.
   */
  method GrowLoop(start: nat, need: nat) returns (capacity: nat)
    requires start > 0
    ensures capacity == Grow(start, need)
  {
    capacity := start;
    while capacity < need
      invariant 0 < start <= capacity
      invariant Grow(capacity, need) == Grow(start, need)
      decreases need - capacity
    {
      capacity := capacity + capacity + 1;
    }
  }

  /** `realloc` on a heap array: a fresh array of `n` cells holding a copy of the old ones. */
  method ReallocArray(data: array<Cell>, n: nat) returns (grown: array<Cell>)
    requires data.Length <= n
    ensures fresh(grown)
    ensures grown[..] == Realloc(data[..], n)
  {
    grown := new Cell[n](_ => Indeterminate);
    var i := 0;
    while i < data.Length
      invariant 0 <= i <= data.Length
      invariant forall k :: 0 <= k < i ==> grown[k] == data[k]
      invariant forall k :: i <= k < n ==> grown[k] == Indeterminate
    {
      grown[i] := data[i];
      i := i + 1;
    }
    ReallocCells(data[..], n);
  }

  /** `memcpy` into a heap array, one cell at a time. */
  method CopyInto(data: array<Cell>, off: nat, t: seq<char>)
    requires off + |t| <= data.Length
    modifies data
    ensures data[..] == Memcpy(old(data[..]), off, t)
  {
    ghost var stored := data[..];
    var j := 0;
    while j < |t|
      invariant 0 <= j <= |t|
      invariant forall k :: 0 <= k < data.Length && !(off <= k < off + j) ==> data[k] == stored[k]
      invariant forall k :: off <= k < off + j ==> data[k] == Byte(t[k - off])
    {
      data[off + j] := Byte(t[j]);
      j := j + 1;
    }
    MemcpyCells(stored, off, t);
  }

  /**
   `block_append` on heap arrays: storage is allocated on first use, the
   capacity is grown by the doubling loop, the storage is reallocated exactly
   when the capacity grew, and the text is copied in at `Offset(size)`. The
   block's storage is first loaded into a fresh array, so the caller's block
   is a value and is never changed.
   */
  method AppendOnHeap(b: Block, s: Option<seq<char>>) returns (r: Block, reallocated: bool)
    requires Valid(b)
    ensures r == Append(b, s)
    ensures reallocated <==> s.Some? && b.capacity < r.capacity
  {
    if s.None? {
      return b, false;
    }
    var t := CStr(s.value);
    var lastCap := b.capacity;
    var start := b.capacity;
    var data: array<Cell>;
    if start == 0 {
      start := |t| + 1;
      data := new Cell[start](_ => Indeterminate);
      UninitCells(start);
    } else {
      var init := b.data;
      data := new Cell[|init|](i requires 0 <= i < |init| => init[i]);
    }
    assert data[..] == if b.capacity == 0 then Uninit(|t| + 1) else b.data;
    var capacity := GrowLoop(start, b.size + |t|);
    reallocated := lastCap < capacity;
    if reallocated {
      data := ReallocArray(data, capacity);
    }
    assert data[..] == Storage(b, |t|);
    CopyInto(data, Offset(b.size), t);
    r := Block(lastCap, capacity, b.size + |t|, data[..]);
  }

  /**
   `block_clear` on a heap array: the storage is loaded into a fresh array,
   its first `size` cells are set to NUL one by one (`memset`), and `size`
   drops to 0.
   */
  method ClearOnHeap(b: Block) returns (r: Block)
    requires Valid(b)
    ensures r == Clear(b)
  {
    var init := b.data;
    var data := new Cell[|init|](i requires 0 <= i < |init| => init[i]);
    var j := 0;
    while j < b.size
      invariant 0 <= j <= b.size
      invariant forall k :: 0 <= k < j ==> data[k] == Byte('\0')
      invariant forall k :: j <= k < data.Length ==> data[k] == init[k]
    {
      data[j] := Byte('\0');
      j := j + 1;
    }
    ZeroedIs(init, b.size, data[..]);
    r := b.(size := 0, data := data[..]);
  }

  /** Storage whose first `n` cells are NUL and whose other cells are those of `d` is `Zeroed(d, n)`. */
  lemma ZeroedIs(d: seq<Cell>, n: nat, e: seq<Cell>)
    requires n <= |d| == |e|
    requires forall k :: 0 <= k < n ==> e[k] == Byte('\0')
    requires forall k :: n <= k < |d| ==> e[k] == d[k]
    ensures e == Zeroed(d, n)
  {
  }
}
