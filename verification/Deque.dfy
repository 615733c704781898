/** A double-ended queue in a ring buffer that moves the shorter side on insertion and erasure. */
module Deque {
  import opened Ring

  class DequeMemory<T> {
    var l: array<Slot<T>>
    var head: nat
    var n: nat

    ghost predicate Shape()
      reads this
    {
      GoodHead(l.Length, head) && n <= l.Length
    }

    /** The slots in logical order. */
    ghost function Slots(): seq<Slot<T>>
      reads this, l
      requires GoodHead(l.Length, head)
    {
      View(l[..], head)
    }

    /** Exactly the slots of the elements are constructed. */
    ghost predicate Valid()
      reads this, l
    {
      Shape() && forall k :: 0 <= k < l.Length ==> (Slots()[k].Live? <==> k < n)
    }

    ghost function Contents(): (c: seq<T>)
      reads this, l
      requires Valid()
      ensures |c| == n && Slots() == Layout(c, l.Length)
    {
      var c := seq(n, k requires 0 <= k < n && Valid() reads this, l => Slots()[k].value);
      assert Slots() == Layout(c, l.Length);
      c
    }

    /** The deque holds exactly c. */
    ghost predicate Holds(c: seq<T>)
      reads this, l
    {
      Shape() && n == |c| && Slots() == Layout(c, l.Length)
    }

    lemma HoldsContents(c: seq<T>)
      requires Holds(c)
      ensures Valid() && Contents() == c
    {
      assert Contents() == c by {
        forall k | 0 <= k < n
          ensures Contents()[k] == c[k]
        {
          assert Slots()[k] == Live(c[k]) == Layout(Contents(), l.Length)[k];
        }
      }
    }

    /** Sets the number of elements once the slots are as they should be. */
    method SetCount(m: nat, ghost c: seq<T>)
      requires GoodHead(l.Length, head) && m <= l.Length
      modifies this`n
      ensures n == m && Slots() == old(Slots())
      ensures m == |c| && Slots() == Layout(c, l.Length) ==> Valid() && Contents() == c
    {
      ghost var s := l[..];
      n := m;
      assert l[..] == s;
      if m == |c| && Slots() == Layout(c, l.Length) {
        HoldsContents(c);
      }
    }

    constructor ()
      ensures Valid() && Contents() == [] && l.Length == 0 && fresh(l)
    {
      l := new Slot<T>[0];
      head := 0;
      n := 0;
    }

    /** Constructs an element in a raw slot. */
    method Fill(p: nat, v: T)
      requires p < l.Length && l[p].Raw?
      modifies l
      ensures l[..] == old(l[..])[p := Live(v)]
    {
      l[p] := Live(v);
    }

    /** Destroys the element in a live slot. */
    method Destroy(p: nat)
      requires p < l.Length && l[p].Live?
      modifies l
      ensures l[..] == old(l[..])[p := Raw]
    {
      l[p] := Raw;
    }

    /** How many of k elements lie before the end of the buffer. */
    function Naccess(k: nat): nat
      reads this
      requires GoodHead(l.Length, head)
    {
      if head + k <= l.Length then k else l.Length - head
    }

    /** The capacity after growing on demand. */
    static function Grown(capacity: nat): (r: nat)
      ensures r > capacity && (capacity == 0 ==> r == 4) && (capacity > 0 ==> r == 2 * capacity)
    {
      if capacity == 0 then 4 else capacity + capacity
    }

    method PushBack(v: T, memory: bool)
      requires Valid()
      modifies this, l
      ensures Valid() && Contents() == if old(n) < old(l.Length) || memory then old(Contents()) + [v] else old(Contents())
      ensures if old(n) < old(l.Length) || !memory then l == old(l) else fresh(l) && l.Length == Grown(old(l.Length))
      decreases if n < l.Length then 0 else 2
    {
      if n < l.Length {
        ghost var c := Contents();
        var p := Canon(l.Length, head + n);
        ViewUpdate(l[..], head, n, Live(v));
        assert Slots()[n] == Raw;
        Fill(p, v);
        n := n + 1;
        assert Slots() == Layout(c + [v], l.Length);
        HoldsContents(c + [v]);
      } else {
        var _ := ReserveAndPush(-1, false, v, memory);
      }
    }

    method PushFront(v: T, memory: bool)
      requires Valid()
      modifies this, l
      ensures Valid() && Contents() == if old(n) < old(l.Length) || memory then [v] + old(Contents()) else old(Contents())
      ensures if old(n) < old(l.Length) || !memory then l == old(l) else fresh(l) && l.Length == Grown(old(l.Length))
      decreases if n < l.Length then 0 else 2
    {
      if n < l.Length {
        ghost var c := Contents();
        GapAtEnds(l[..], head, c);
        head := Prev(l.Length, head);
        GapFilledView(l[..], head, c, 0, v);
        assert c[..0] + [v] + c[0..] == [v] + c;
        Fill(head, v);
        SetCount(n + 1, [v] + c);
      } else {
        var _ := ReserveAndPush(-1, true, v, memory);
      }
    }

    method PopBack()
      requires Valid() && n > 0
      modifies this`n, l
      ensures Valid() && Contents() == old(Contents())[..old(n) - 1]
    {
      ghost var c := Contents();
      n := n - 1;
      var p := Canon(l.Length, head + n);
      assert Slots()[n] == Live(c[n]);
      ViewUpdate(l[..], head, n, Raw);
      Destroy(p);
      assert Slots() == Layout(c[..|c| - 1], l.Length);
      HoldsContents(c[..|c| - 1]);
    }

    method PopFront()
      requires Valid() && n > 0
      modifies this`n, this`head, l
      ensures Valid() && Contents() == old(Contents())[1..]
    {
      ghost var c := Contents();
      n := n - 1;
      assert Slots()[0] == Live(c[0]);
      ViewUpdate(l[..], head, 0, Raw);
      Destroy(head);
      ghost var v := Slots();
      ViewAdvance(l[..], head, 1);
      head := Next(l.Length, head);
      assert Slots() == v[1..] + v[..1];
      assert Slots() == Layout(c[1..], l.Length);
      HoldsContents(c[1..]);
    }

    /** The capacity asked for: a negative number stands for twice the present one, or four. */
    function Wanted(want: int): nat
      reads this
    {
      if want >= 0 then want else if l.Length > 0 then l.Length * 2 else 4
    }

    /** Makes room for `want` elements; `memory` says whether a larger buffer can be allocated. */
    method Reserve(want: int, memory: bool) returns (ok: bool)
      requires Valid()
      modifies this
      ensures Valid() && Contents() == old(Contents()) && n == old(n)
      ensures ok == (memory || old(Wanted(want)) <= old(l.Length))
      ensures if ok && old(Wanted(want)) > old(l.Length) then fresh(l) && head == 0 && l.Length == old(Wanted(want))
              else l == old(l) && l[..] == old(l[..]) && head == old(head)
      ensures old(Wanted(want)) == if want >= 0 then want else Grown(old(l.Length))
    {
      var size := Wanted(want);
      ok := true;
      if size > l.Length {
        if memory {
          Grow(size);
        } else {
          ok := false;
        }
      }
    }

    /** Makes room and then pushes an element at the front or the back. Without memory for the room,
        nothing is pushed and the result is false. */
    method ReserveAndPush(want: int, isFront: bool, v: T, memory: bool) returns (ok: bool)
      requires Valid()
      modifies this, l
      ensures Valid() && (l == old(l) || fresh(l))
      ensures want < 0 ==> if memory then fresh(l) && l.Length == Grown(old(l.Length)) else l == old(l)
      ensures ok == (memory || old(Wanted(want)) <= old(l.Length))
      ensures var c := old(Contents());
              Contents() == if memory || (ok && old(n) < old(l.Length)) then (if isFront then [v] + c else c + [v]) else c
      decreases if want < 0 then 1 else 3
    {
      ok := Reserve(want, memory);
      if !ok {
        return;
      }
      if isFront {
        PushFront(v, memory);
      } else {
        PushBack(v, memory);
      }
    }

    /** Copies k slots of the buffer, from index `from` on, to another buffer. */
    method CopySlots(newL: array<Slot<T>>, at: nat, from: nat, k: nat)
      requires newL != l && at + k <= newL.Length && from + k <= l.Length
      modifies newL
      ensures forall j :: 0 <= j < newL.Length ==> newL[j] == if at <= j < at + k then l[from + (j - at)] else old(newL[j])
    {
      var i := 0;
      while i < k
        invariant i <= k
        invariant forall j :: 0 <= j < newL.Length ==> newL[j] == if at <= j < at + i then l[from + (j - at)] else old(newL[j])
      {
        newL[at + i] := l[from + i];
        i := i + 1;
      }
    }

    /** Moves the elements to the start of a larger buffer. */
    method Grow(size: nat)
      requires Valid() && size > l.Length
      modifies this
      ensures Valid() && Contents() == old(Contents()) && n == old(n)
      ensures l.Length == size && fresh(l) && head == 0
    {
      ghost var c := Contents();
      var newL := new Slot<T>[size](i => Raw);
      var f := Naccess(n);
      ghost var s := l[..];
      CopySlots(newL, 0, head, f);
      CopySlots(newL, f, 0, n - f);
      Unrolled(s, head, c, f, newL[..]);
      l := newL;
      head := 0;
      HoldsContents(c);
    }

    /** Moves the element at a position into a raw slot. */
    method MoveSlot(dst: nat, src: nat, ghost dk: nat, ghost sk: nat)
      requires head < l.Length && dk < l.Length && sk < l.Length && dst == head + dk && src == head + sk
      requires Slots()[dk].Raw? && Slots()[sk].Live?
      modifies l
      ensures Slots() == old(Slots())[dk := old(Slots())[sk]][sk := Raw]
    {
      var from := Canon(l.Length, src);
      ViewUpdate(l[..], head, dk, l[from]);
      assert Slots()[sk] == l[from];
      Fill(Canon(l.Length, dst), l[from].value);
      ViewUpdate(l[..], head, sk, Raw);
      Destroy(from);
    }

    /** Destroys the element at a position and constructs a copy of another in its place; positions
        count from `base`. */
    method ReplaceSlot(ghost base: nat, dst: nat, src: nat, ghost dk: nat, ghost sk: nat)
      requires base < l.Length && dk < l.Length && sk < l.Length && dk != sk && dst == base + dk && src == base + sk
      requires View(l[..], base)[dk].Live? && View(l[..], base)[sk].Live?
      modifies l
      ensures View(l[..], base) == old(View(l[..], base))[dk := old(View(l[..], base))[sk]]
    {
      var from, to := Canon(l.Length, src), Canon(l.Length, dst);
      assert View(l[..], base)[dk] == l[to] && View(l[..], base)[sk] == l[from] && from != to;
      ViewUpdate(l[..], base, dk, l[from]);
      ghost var before := l[..];
      Destroy(to);
      Fill(to, l[from].value);
      assert l[..] == before[to := before[from]];
    }

    method DestroySlot(ghost base: nat, dst: nat, ghost dk: nat)
      requires base < l.Length && dk < l.Length && dst == base + dk && View(l[..], base)[dk].Live?
      modifies l
      ensures View(l[..], base) == old(View(l[..], base))[dk := Raw]
    {
      ViewUpdate(l[..], base, dk, Raw);
      Destroy(Canon(l.Length, dst));
    }

    /** Moves the gap from position g to position i, one element at a time. */
    method MoveGap(g: nat, i: nat, delta: int, ghost c: seq<T>) returns (dst: nat)
      requires head < l.Length && g <= |c| < l.Length && i <= |c| && Slots() == Gap(c, l.Length, g)
      requires (delta == 1 && g <= i) || (delta == -1 && i <= g)
      modifies l
      ensures dst == head + i && Slots() == Gap(c, l.Length, i)
    {
      ghost var gap := g;
      var src: int, size: int := head + g + delta, if delta == 1 then i - g else g - i;
      dst := head + g;
      while size != 0
        invariant 0 <= size && gap <= |c| && dst == head + gap && src == dst + delta
        invariant size == if delta == 1 then i - gap else gap - i
        invariant Slots() == Gap(c, l.Length, gap)
        decreases size
      {
        GapMoves(c, l.Length, gap, gap + delta);
        MoveSlot(dst, src, gap, gap + delta);
        gap := gap + delta;
        dst, src, size := dst + delta, src + delta, size - 1;
      }
    }

    /** Opens a raw slot at position i by moving whichever side is shorter, and returns where it is. */
    method OpenGap(i: nat) returns (dst: nat)
      requires Valid() && i <= n < l.Length
      modifies this`head, l
      ensures head < l.Length && dst == head + i && Slots() == Gap(old(Contents()), l.Length, i)
    {
      ghost var c := Contents();
      GapAtEnds(l[..], head, c);
      if i <= n - i {
        head := Prev(l.Length, head);
        dst := MoveGap(0, i, 1, c);
      } else {
        dst := MoveGap(n, i, -1, c);
      }
    }

    /** Inserts v before position i; false if a larger buffer was needed and there was no memory. */
    method Insert(i: int, v: T, memory: bool) returns (ok: bool)
      requires Valid() && 0 <= i <= n
      modifies this, l
      ensures Valid() && ok == (old(n) < old(l.Length) || memory)
      ensures if old(n) < old(l.Length) || !memory then l == old(l) else fresh(l) && l.Length == Grown(old(l.Length))
      ensures Contents() == if ok then old(Contents())[..i] + [v] + old(Contents())[i..] else old(Contents())
    {
      if n == l.Length {
        var grown := Reserve(-1, memory);
        if !grown {
          return false;
        }
      }
      InsertWithRoom(i, v);
      ok := true;
    }

    method InsertWithRoom(i: nat, v: T)
      requires Valid() && i <= n < l.Length
      modifies this`head, this`n, l
      ensures Valid() && Contents() == old(Contents())[..i] + [v] + old(Contents())[i..]
    {
      ghost var c := Contents();
      var dst := OpenGap(i);
      GapFilledView(l[..], head, c, i, v);
      Fill(Canon(l.Length, dst), v);
      SetCount(n + 1, c[..i] + [v] + c[i..]);
    }

    /** Moves the elements before position a up to position b. Positions count from the old head. */
    method CopyUp(base: nat, a: nat, b: nat, ghost c: seq<T>)
      requires base < l.Length && a < b <= |c| <= l.Length && View(l[..], base) == Layout(c, l.Length)
      modifies l
      ensures View(l[..], base) == ErasingFront(c, l.Length, a, b, a, 0)
    {
      ghost var t := 0;
      var src, dst, size := base + a - 1, base + b - 1, a;
      ErasedFront(c, l.Length, a, b);
      while size != 0
        invariant size == a - t && t <= a && dst == base + (b - 1 - t) && src == base + (a - 1 - t)
        invariant View(l[..], base) == ErasingFront(c, l.Length, a, b, t, 0)
      {
        ghost var dk, sk := b - 1 - t, a - 1 - t;
        ErasingFrontSteps(c, l.Length, a, b, t, 0);
        ReplaceSlot(base, dst, src, dk, sk);
        t, dst, src, size := t + 1, dst - 1, src - 1, size - 1;
      }
    }

    /** Destroys what is left at the front. */
    method DestroyFront(base: nat, a: nat, b: nat, ghost c: seq<T>)
      requires base < l.Length && a < b <= |c| <= l.Length && View(l[..], base) == ErasingFront(c, l.Length, a, b, a, 0)
      modifies l
      ensures View(l[..], base) == ErasingFront(c, l.Length, a, b, a, b - a)
    {
      ghost var t := 0;
      var dst, size := base + b - 1 - a, b - a;
      while size != 0
        invariant size == b - a - t && t <= b - a && dst == base + b - a - 1 - t
        invariant View(l[..], base) == ErasingFront(c, l.Length, a, b, a, t)
      {
        ErasingFrontSteps(c, l.Length, a, b, a, t);
        DestroySlot(base, dst, b - a - 1 - t);
        t, dst, size := t + 1, dst - 1, size - 1;
      }
    }

    /** Moves the elements from position b on down to position a. */
    method CopyDown(base: nat, a: nat, b: nat, ghost c: seq<T>)
      requires base < l.Length && a < b <= |c| <= l.Length && View(l[..], base) == Layout(c, l.Length) && n == |c|
      modifies l
      ensures View(l[..], base) == ErasingBack(c, l.Length, a, b, |c| - b, 0)
    {
      ghost var t := 0;
      var src, dst, size := base + b, base + a, n - b;
      ErasedBack(c, l.Length, a, b);
      while size != 0
        invariant size == |c| - b - t && t <= |c| - b && dst == base + a + t && src == base + b + t
        invariant View(l[..], base) == ErasingBack(c, l.Length, a, b, t, 0)
      {
        ErasingBackSteps(c, l.Length, a, b, t, 0);
        ReplaceSlot(base, dst, src, a + t, b + t);
        t, dst, src, size := t + 1, dst + 1, src + 1, size - 1;
      }
    }

    /** Destroys what is left at the end. */
    method DestroyBack(base: nat, a: nat, b: nat, ghost c: seq<T>)
      requires base < l.Length && a < b <= |c| <= l.Length && View(l[..], base) == ErasingBack(c, l.Length, a, b, |c| - b, 0)
      requires n == |c|
      modifies l
      ensures View(l[..], base) == ErasingBack(c, l.Length, a, b, |c| - b, b - a)
    {
      ghost var t := 0;
      var dst, size := base + a + (n - b), b - a;
      while size != 0
        invariant size == b - a - t && t <= b - a && dst == base + a + (|c| - b) + t
        invariant View(l[..], base) == ErasingBack(c, l.Length, a, b, |c| - b, t)
      {
        ErasingBackSteps(c, l.Length, a, b, |c| - b, t);
        DestroySlot(base, dst, a + (|c| - b) + t);
        t, dst, size := t + 1, dst + 1, size - 1;
      }
    }

    method EraseSome(a: nat, b: nat)
      requires Valid() && a < b <= n
      modifies this`head, this`n, l
      ensures Valid() && Contents() == old(Contents())[..a] + old(Contents())[b..]
    {
      ghost var c := Contents();
      if a < n - b {
        EraseByFront(a, b, c);
      } else {
        CopyDown(head, a, b, c);
        DestroyBack(head, a, b, c);
        ErasedBack(c, l.Length, a, b);
      }
      SetCount(n - (b - a), c[..a] + c[b..]);
    }

    /** Moves the elements before the range up. */
    method EraseByFront(a: nat, b: nat, ghost c: seq<T>)
      requires head < l.Length && a < b <= |c| <= l.Length && Slots() == Layout(c, l.Length)
      modifies this`head, l
      ensures GoodHead(l.Length, head) && Slots() == Layout(c[..a] + c[b..], l.Length)
    {
      var base := head;
      head := Canon(l.Length, head + b - a);
      CopyUp(base, a, b, c);
      DestroyFront(base, a, b, c);
      ErasedFrontView(l[..], base, c, a, b);
    }

    /** Erases positions a to b, moving whichever side is shorter. */
    method Erase(a: int, b: int) returns (r: int)
      requires Valid() && (a >= b || (0 <= a && b <= n))
      modifies this, l
      ensures Valid() && l == old(l)
      ensures r == if a < b then a else b
      ensures Contents() == if a < b then old(Contents())[..a] + old(Contents())[b..] else old(Contents())
    {
      if a < b {
        EraseSome(a, b);
        r := a;
      } else {
        r := b;
      }
    }

    method DestroyRange(p: nat, k: nat)
      requires p + k <= l.Length && forall j :: p <= j < p + k ==> l[j].Live?
      modifies l
      ensures forall j :: 0 <= j < l.Length ==> l[j] == if p <= j < p + k then Raw else old(l[j])
    {
      var i := 0;
      while i < k
        invariant i <= k
        invariant forall j :: 0 <= j < l.Length ==> l[j] == if p <= j < p + i then Raw else old(l[j])
      {
        Destroy(p + i);
        i := i + 1;
      }
    }

    /** Destroys all elements. */
    method Clear()
      requires Valid()
      modifies this`head, this`n, l
      ensures Valid() && Contents() == [] && head == 0 && n == 0
    {
      var f := Naccess(n);
      LiveSlots(l[..], head, Contents(), f);
      DestroyRange(head, f);
      DestroyRange(0, n - f);
      AllRaw(l[..]);
      head, n := 0, 0;
      HoldsContents([]);
    }

    /** Becomes a copy of another deque; the buffer is enlarged only if it is too small, and if that
        fails the deque is left empty. */
    method Assign(x: DequeMemory<T>, memory: bool)
      requires Valid() && x.Valid() && (x != this ==> x.l != l)
      modifies this, l
      ensures Valid() && if x == this || old(x.n) <= old(l.Length) || !memory then l == old(l) else fresh(l)
      ensures Contents() == if x == this || memory || old(x.n) <= old(l.Length) then old(x.Contents()) else []
      ensures x != this ==> x.Valid() && x.Contents() == old(x.Contents())
    {
      if x != this {
        AssignFrom(x, memory);
      }
    }

    method AssignFrom(x: DequeMemory<T>, memory: bool)
      requires Valid() && x.Valid() && x != this && x.l != l
      modifies this, l
      ensures Valid() && x.l != l && if x.n <= old(l.Length) || !memory then l == old(l) else fresh(l)
      ensures x.l == old(x.l) && x.l[..] == old(x.l[..]) && x.head == old(x.head) && x.n == old(x.n)
      ensures Contents() == if memory || x.n <= old(l.Length) then x.Contents() else []
    {
      ghost var s := x.l[..];
      Clear();
      var ok := Reserve(x.n, memory);
      assert x.l[..] == s && x.Valid();
      if ok {
        CopyFrom(x);
        assert x.l[..] == s;
      }
    }

    method CopyFrom(x: DequeMemory<T>)
      requires Valid() && Contents() == [] && head == 0 && x.Valid() && x != this && x.l != l && x.n <= l.Length
      modifies this`n, l
      ensures Valid() && Contents() == x.Contents()
    {
      ghost var c, s := x.Contents(), x.l[..];
      AllRaw(l[..]);
      var f := x.Naccess(x.n);
      x.CopySlots(l, 0, x.head, f);
      x.CopySlots(l, f, 0, x.n - f);
      assert x.l[..] == s;
      Unrolled(s, x.head, c, f, l[..]);
      SetCount(x.n, c);
    }

    /** The loop of Resize starts where it should stop: the change is a whole lap. */
    static predicate WholeLap(capacity: nat, from: nat, to: nat) {
      from != to && (from == to + capacity || to == from + capacity)
    }

    /** Drops elements at the end, or adds copies of v there. It meets its purpose exactly if the
        deque does not go from empty to full or from full to empty: then the loop over the slots is
        skipped, and the deque counts elements it never constructed or forgets to destroy those it
        has. Without memory for a larger buffer nothing changes. */
    method Resize(m: nat, v: T, memory: bool)
      requires Valid()
      modifies this, l
      ensures if m <= old(l.Length) || !memory then l == old(l) else fresh(l)
      ensures if m > old(l.Length) && !memory then Valid() && Contents() == old(Contents())
              else GoodHead(l.Length, head) && n == m && l.Length == (if m <= old(l.Length) then old(l.Length) else m)
      ensures m <= old(l.Length) || memory ==> (Valid() <==> !WholeLap(l.Length, old(n), m))
      ensures (m <= old(l.Length) || memory) && Valid() ==> Contents() == Resized(old(Contents()), m, v)
      ensures !Valid() ==> Slots() == Layout(old(Contents()), l.Length)
    {
      if m <= l.Length {
        ResizeInRoom(m, v);
      } else {
        var ok := Reserve(m, memory);
        if ok {
          ResizeInRoom(m, v);
        }
      }
    }

    method ResizeInRoom(m: nat, v: T)
      requires Valid() && m <= l.Length
      modifies this`n, l
      ensures n == m && (Valid() <==> !WholeLap(l.Length, old(n), m))
      ensures Valid() ==> Contents() == Resized(old(Contents()), m, v)
      ensures !Valid() ==> Slots() == Layout(old(Contents()), l.Length)
    {
      ghost var c := Contents();
      ResizeSlots(m, v, c);
      SetCount(m, Resized(c, m, v));
      if WholeLap(l.Length, |c|, m) {
        assert Slots()[0] == Layout(c, l.Length)[0];
      }
    }

    method ResizeSlots(m: nat, v: T, ghost c: seq<T>)
      requires Holds(c) && m <= l.Length
      modifies l
      ensures Slots() == if WholeLap(l.Length, n, m) then Layout(c, l.Length) else Layout(Resized(c, m, v), l.Length)
    {
      if m < n {
        Shrink(m, c);
      }
      if n < m {
        Extend(m, v, c);
      }
      assert m == n ==> Resized(c, m, v) == c;
    }

    method Shrink(m: nat, ghost c: seq<T>)
      requires Holds(c) && m < n
      modifies l
      ensures Slots() == if WholeLap(l.Length, n, m) then Layout(c, l.Length) else Layout(c[..m], l.Length)
    {
      var p, x := Canon(l.Length, head + m), Canon(l.Length, head + n);
      ghost var k := m;
      ShrinkingSteps(c, l.Length, m, m);
      while p != x
        invariant m <= k <= n && p == Canon(l.Length, head + k) && (WholeLap(l.Length, n, m) ==> k == m)
        invariant Slots() == Shrinking(c, l.Length, m, k)
        decreases n - k
      {
        ShrinkStep(l[..], head, c, m, k);
        Destroy(p);
        p := Next(l.Length, p);
        k := k + 1;
      }
    }

    method Extend(m: nat, v: T, ghost c: seq<T>)
      requires Holds(c) && n < m <= l.Length
      modifies l
      ensures Slots() == if WholeLap(l.Length, n, m) then Layout(c, l.Length) else Layout(c + Repeat(v, m - n), l.Length)
    {
      var p, x := Canon(l.Length, head + n), Canon(l.Length, head + m);
      ghost var k := 0;
      GrowingSteps(c, l.Length, v, 0);
      while p != x
        invariant k <= m - n && p == Canon(l.Length, head + (|c| + k)) && (WholeLap(l.Length, n, m) ==> k == 0)
        invariant Slots() == Layout(c + Repeat(v, k), l.Length)
        decreases m - n - k
      {
        GrowStep(l[..], head, c, v, k);
        Fill(p, v);
        p := Next(l.Length, p);
        k := k + 1;
      }
    }

    /** A deque of `size` copies of v, as it is built: by resizing an empty deque without a buffer.
        For size > 0 that is a whole lap, so not one of its elements is constructed. */
    constructor Sized(size: nat, v: T, memory: bool)
      ensures if memory && size > 0 then n == size == l.Length && GoodHead(l.Length, head) && !Valid()
              else Valid() && Contents() == []
      ensures memory && size > 0 ==> forall k :: 0 <= k < size ==> Slots()[k] == Raw
    {
      l := new Slot<T>[0];
      head := 0;
      n := 0;
      new;
      assert Slots() == Layout<T>([], 0);
      HoldsContents([]);
      Resize(size, v, memory);
    }
  }
}
