/** A ring buffer seen from its head: index arithmetic, and the slot sequences that operations on
    the deque pass through. */
module Ring {
  /** A slot of the buffer either holds a constructed element or is raw memory. */
  datatype Slot<T> = Raw | Live(value: T)

  /** The physical index for a position at most one lap ahead. */
  function Canon(cap: nat, p: nat): nat {
    if p < cap then p else p - cap
  }

  function Prev(cap: nat, p: nat): nat
    requires cap > 0
  {
    if p > 0 then p - 1 else cap - 1
  }

  function Next(cap: nat, p: nat): nat {
    if p + 1 != cap then p + 1 else 0
  }

  predicate GoodHead(cap: nat, head: nat) {
    if cap == 0 then head == 0 else head < cap
  }

  /** The slots in logical order, starting at the head. */
  function View<T>(s: seq<Slot<T>>, head: nat): (v: seq<Slot<T>>)
    requires GoodHead(|s|, head)
    ensures |v| == |s| && forall k :: 0 <= k < |s| ==> v[k] == s[Canon(|s|, head + k)]
  {
    s[head..] + s[..head]
  }

  lemma ViewUpdate<T>(s: seq<Slot<T>>, head: nat, k: nat, x: Slot<T>)
    requires GoodHead(|s|, head) && k < |s|
    ensures View(s[Canon(|s|, head + k) := x], head) == View(s, head)[k := x]
  {
  }

  lemma ViewPrev<T>(s: seq<Slot<T>>, head: nat)
    requires |s| > 0 && head < |s|
    ensures Prev(|s|, head) < |s|
    ensures View(s, Prev(|s|, head)) == [View(s, head)[|s| - 1]] + View(s, head)[..|s| - 1]
  {
  }

  lemma ViewAdvance<T>(s: seq<Slot<T>>, head: nat, d: nat)
    requires |s| > 0 && head < |s| && d <= |s|
    ensures Canon(|s|, head + d) < |s|
    ensures View(s, Canon(|s|, head + d)) == View(s, head)[d..] + View(s, head)[..d]
  {
  }

  /** Exactly the first slots are live. */
  function Layout<T>(c: seq<T>, cap: nat): (v: seq<Slot<T>>)
    requires |c| <= cap
    ensures |v| == cap && forall k :: 0 <= k < cap ==> v[k] == if k < |c| then Live(c[k]) else Raw
  {
    seq(cap, k requires 0 <= k < cap => if k < |c| then Live(c[k]) else Raw)
  }

  /** The elements with a raw slot at position g. */
  function Gap<T>(c: seq<T>, cap: nat, g: nat): (v: seq<Slot<T>>)
    requires g <= |c| < cap
    ensures |v| == cap
    ensures forall k :: 0 <= k < cap ==>
        v[k] == if k < g then Live(c[k]) else if k == g || k > |c| then Raw else Live(c[k - 1])
  {
    seq(cap, k requires 0 <= k < cap => if k < g then Live(c[k]) else if k == g || k > |c| then Raw else Live(c[k - 1]))
  }

  lemma GapEnds<T>(c: seq<T>, cap: nat)
    requires |c| < cap
    ensures Gap(c, cap, |c|) == Layout(c, cap)
    ensures Gap(c, cap, 0) == [Layout(c, cap)[cap - 1]] + Layout(c, cap)[..cap - 1]
  {
  }

  /** Moving the element behind or before the gap into it moves the gap. */
  lemma GapMoves<T>(c: seq<T>, cap: nat, g: nat, h: nat)
    requires g <= |c| < cap && h <= |c| && (h == g + 1 || g == h + 1)
    ensures Gap(c, cap, g)[g := Gap(c, cap, g)[h]][h := Raw] == Gap(c, cap, h)
  {
  }

  lemma GapFilled<T>(c: seq<T>, cap: nat, g: nat, v: T)
    requires g <= |c| < cap
    ensures Gap(c, cap, g)[g := Live(v)] == Layout(c[..g] + [v] + c[g..], cap)
  {
  }

  /** Erasing positions a to b by moving the elements before a up: t of them are moved, and then u of
      the leftovers at the front destroyed. */
  function ErasingFront<T>(c: seq<T>, cap: nat, a: nat, b: nat, t: nat, u: nat): (v: seq<Slot<T>>)
    requires t <= a < b <= |c| <= cap && u <= b - a && (u > 0 ==> t == a)
    ensures |v| == cap
    ensures forall k :: 0 <= k < cap ==>
        v[k] == if b - a - u <= k < b - a && u > 0 then Raw
                else if b - t <= k < b then Live(c[k - (b - a)])
                else if k < |c| then Live(c[k]) else Raw
  {
    seq(cap, k requires 0 <= k < cap =>
        if b - a - u <= k < b - a && u > 0 then Raw
        else if b - t <= k < b then Live(c[k - (b - a)])
        else if k < |c| then Live(c[k]) else Raw)
  }

  lemma ErasingFrontSteps<T>(c: seq<T>, cap: nat, a: nat, b: nat, t: nat, u: nat)
    requires t <= a < b <= |c| <= cap && u <= b - a && (u > 0 ==> t == a)
    ensures t < a ==>
        var v := ErasingFront(c, cap, a, b, t, 0);
        && u == 0 && v[b - 1 - t].Live? && v[a - 1 - t].Live?
        && ErasingFront(c, cap, a, b, t + 1, 0) == v[b - 1 - t := v[a - 1 - t]]
    ensures t == a && u < b - a ==>
        ErasingFront(c, cap, a, b, a, u)[b - a - 1 - u].Live? && ErasingFront(c, cap, a, b, a, u + 1) == ErasingFront(c, cap, a, b, a, u)[b - a - 1 - u := Raw]
  {
  }

  lemma ErasedFront<T>(c: seq<T>, cap: nat, a: nat, b: nat)
    requires a < b <= |c| <= cap
    ensures ErasingFront(c, cap, a, b, 0, 0) == Layout(c, cap)
    ensures var v := ErasingFront(c, cap, a, b, a, b - a);
            v[b - a..] + v[..b - a] == Layout(c[..a] + c[b..], cap)
  {
  }

  /** The same by moving the elements from b on down. */
  function ErasingBack<T>(c: seq<T>, cap: nat, a: nat, b: nat, t: nat, u: nat): (v: seq<Slot<T>>)
    requires a < b <= |c| <= cap && t <= |c| - b && u <= b - a && (u > 0 ==> t == |c| - b)
    ensures |v| == cap
    ensures forall k :: 0 <= k < cap ==>
        v[k] == if a + t <= k < a + t + u then Raw
                else if a <= k < a + t then Live(c[k + (b - a)])
                else if k < |c| then Live(c[k]) else Raw
  {
    seq(cap, k requires 0 <= k < cap =>
        if a + t <= k < a + t + u then Raw
        else if a <= k < a + t then Live(c[k + (b - a)])
        else if k < |c| then Live(c[k]) else Raw)
  }

  lemma ErasingBackSteps<T>(c: seq<T>, cap: nat, a: nat, b: nat, t: nat, u: nat)
    requires a < b <= |c| <= cap && t <= |c| - b && u <= b - a && (u > 0 ==> t == |c| - b)
    ensures t < |c| - b ==>
        var v := ErasingBack(c, cap, a, b, t, 0);
        && u == 0 && v[a + t].Live? && v[b + t].Live?
        && ErasingBack(c, cap, a, b, t + 1, 0) == v[a + t := v[b + t]]
    ensures t == |c| - b && u < b - a ==>
        ErasingBack(c, cap, a, b, t, u)[a + t + u].Live? && ErasingBack(c, cap, a, b, t, u + 1) == ErasingBack(c, cap, a, b, t, u)[a + t + u := Raw]
  {
  }

  lemma ErasedBack<T>(c: seq<T>, cap: nat, a: nat, b: nat)
    requires a < b <= |c| <= cap
    ensures ErasingBack(c, cap, a, b, 0, 0) == Layout(c, cap)
    ensures ErasingBack(c, cap, a, b, |c| - b, b - a) == Layout(c[..a] + c[b..], cap)
  {
  }

  /** Moving the part up to the end of the buffer and then the wrapped part straightens the ring. */
  lemma Unrolled<T>(s: seq<Slot<T>>, head: nat, c: seq<T>, f: nat, t: seq<Slot<T>>)
    requires GoodHead(|s|, head) && |c| <= |s| && |c| <= |t| && View(s, head) == Layout(c, |s|)
    requires f == if head + |c| <= |s| then |c| else |s| - head
    requires forall k :: 0 <= k < |t| ==> t[k] == if k < f then s[head + k] else if k < |c| then s[k - f] else Raw
    ensures View(t, 0) == Layout(c, |t|)
  {
    forall k | 0 <= k < |c|
      ensures t[k] == Live(c[k])
    {
      assert View(s, head)[k] == Layout(c, |s|)[k];
    }
  }

  /** Stepping the head back puts the gap in front; otherwise it lies behind the elements. */
  lemma GapAtEnds<T>(s: seq<Slot<T>>, head: nat, c: seq<T>)
    requires head < |s| && |c| < |s| && View(s, head) == Layout(c, |s|)
    ensures Prev(|s|, head) < |s| && View(s, Prev(|s|, head)) == Gap(c, |s|, 0)
    ensures View(s, head) == Gap(c, |s|, |c|)
  {
    GapEnds(c, |s|);
    ViewPrev(s, head);
  }

  lemma GapFilledView<T>(s: seq<Slot<T>>, head: nat, c: seq<T>, g: nat, v: T)
    requires head < |s| && g <= |c| < |s| && View(s, head) == Gap(c, |s|, g)
    ensures Canon(|s|, head + g) < |s| && s[Canon(|s|, head + g)] == Raw
    ensures View(s[Canon(|s|, head + g) := Live(v)], head) == Layout(c[..g] + [v] + c[g..], |s|)
  {
    assert View(s, head)[g] == Raw;
    ViewUpdate(s, head, g, Live(v));
    GapFilled(c, |s|, g, v);
  }

  lemma ErasedFrontView<T>(s: seq<Slot<T>>, head: nat, c: seq<T>, a: nat, b: nat)
    requires head < |s| && a < b <= |c| <= |s| && View(s, head) == ErasingFront(c, |s|, a, b, a, b - a)
    ensures Canon(|s|, head + b - a) < |s|
    ensures View(s, Canon(|s|, head + b - a)) == Layout(c[..a] + c[b..], |s|)
  {
    ErasedFront(c, |s|, a, b);
    ViewAdvance(s, head, b - a);
  }

  /** The live slots are the first f from the head on and the first ones of the buffer. */
  lemma LiveSlots<T>(s: seq<Slot<T>>, head: nat, c: seq<T>, f: nat)
    requires GoodHead(|s|, head) && |c| <= |s| && View(s, head) == Layout(c, |s|)
    requires f == if head + |c| <= |s| then |c| else |s| - head
    ensures forall p :: 0 <= p < |s| ==> (s[p].Live? <==> head <= p < head + f || p < |c| - f)
  {
    forall p | 0 <= p < |s|
      ensures s[p].Live? <==> head <= p < head + f || p < |c| - f
    {
      var k := if p >= head then p - head else p + |s| - head;
      assert View(s, head)[k] == s[p];
    }
  }

  lemma AllRaw<T>(s: seq<Slot<T>>)
    ensures View(s, 0) == Layout<T>([], |s|) <==> forall p :: 0 <= p < |s| ==> s[p].Raw?
  {
    assert View(s, 0) == s;
    assert forall p :: 0 <= p < |s| ==> Layout<T>([], |s|)[p] == Raw;
  }

  function Repeat<T>(v: T, k: nat): (r: seq<T>)
    ensures |r| == k && forall j :: 0 <= j < k ==> r[j] == v
  {
    seq(k, j => v)
  }

  function Resized<T>(c: seq<T>, m: nat, v: T): (r: seq<T>)
    ensures |r| == m
  {
    if m <= |c| then c[..m] else c + Repeat(v, m - |c|)
  }

  /** The elements from position m on are being destroyed; those before k are gone. */
  function Shrinking<T>(c: seq<T>, cap: nat, m: nat, k: nat): (s: seq<Slot<T>>)
    requires m <= k <= |c| <= cap
    ensures |s| == cap && forall j :: 0 <= j < cap ==> s[j] == if j < m || k <= j < |c| then Live(c[j]) else Raw
  {
    seq(cap, j requires 0 <= j < cap => if j < m || k <= j < |c| then Live(c[j]) else Raw)
  }

  lemma ShrinkingSteps<T>(c: seq<T>, cap: nat, m: nat, k: nat)
    requires m <= k <= |c| <= cap
    ensures Shrinking(c, cap, m, m) == Layout(c, cap)
    ensures k < |c| ==> Shrinking(c, cap, m, k + 1) == Shrinking(c, cap, m, k)[k := Raw]
    ensures Shrinking(c, cap, m, |c|) == Layout(c[..m], cap)
  {
  }

  lemma GrowingSteps<T>(c: seq<T>, cap: nat, v: T, k: nat)
    requires |c| + k <= cap
    ensures c + Repeat(v, 0) == c
    ensures |c| + k < cap ==> Layout(c + Repeat(v, k), cap)[|c| + k] == Raw
    ensures |c| + k < cap ==> Layout(c + Repeat(v, k + 1), cap) == Layout(c + Repeat(v, k), cap)[|c| + k := Live(v)]
  {
  }

  lemma NextSlot(cap: nat, head: nat, k: nat)
    requires head < cap && k < cap
    ensures Canon(cap, head + k) < cap && Next(cap, Canon(cap, head + k)) == Canon(cap, head + (k + 1))
  {
  }

  lemma ShrinkStep<T>(s: seq<Slot<T>>, head: nat, c: seq<T>, m: nat, k: nat)
    requires head < |s| && m <= k < |c| <= |s| && View(s, head) == Shrinking(c, |s|, m, k)
    ensures var p := Canon(|s|, head + k);
            && p < |s| && s[p].Live? && View(s[p := Raw], head) == Shrinking(c, |s|, m, k + 1)
            && Next(|s|, p) == Canon(|s|, head + (k + 1))
  {
    ShrinkingSteps(c, |s|, m, k);
    NextSlot(|s|, head, k);
    ViewUpdate(s, head, k, Raw);
    assert View(s, head)[k] == Live(c[k]);
  }

  lemma GrowStep<T>(s: seq<Slot<T>>, head: nat, c: seq<T>, v: T, k: nat)
    requires head < |s| && |c| + k < |s| && View(s, head) == Layout(c + Repeat(v, k), |s|)
    ensures var p := Canon(|s|, head + (|c| + k));
            && p < |s| && s[p] == Raw && View(s[p := Live(v)], head) == Layout(c + Repeat(v, k + 1), |s|)
            && Next(|s|, p) == Canon(|s|, head + (|c| + (k + 1)))
  {
    GrowingSteps(c, |s|, v, k);
    NextSlot(|s|, head, |c| + k);
    ViewUpdate(s, head, |c| + k, Live(v));
    assert View(s, head)[|c| + k] == Raw;
  }
}