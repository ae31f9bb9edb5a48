/**
 The pool of include/rand.h: numbers drawn at random, none twice until the pool is exhausted.
 */
module RandPool {
  import opened Basics
  import opened Rand
  import opened Word

  /** A pool as a value: the generator's state, the array and the number of entries still to draw. */
  datatype Pool = Pool(seed: int32, data: seq<int>, top: nat)

  datatype Drawn = Drawn(pool: Pool, ret: int, shuffled: bool)

  ghost predicate Valid(p: Pool) {
    |p.data| > 0 && p.top <= |p.data|
  }

  /** One call of `Get`: the entry picked is swapped to the shrinking end of the pool. */
  function Draw(p: Pool): (d: Drawn)
    requires Valid(p)
    ensures Valid(d.pool) && |d.pool.data| == |p.data|
  {
    var top := if p.top == 0 then |p.data| else p.top;
    var seed := Next(p.seed);
    var entry := Output(seed) % top;
    var ret := p.data[entry];
    Drawn(Pool(seed, p.data[entry := p.data[top - 1]][top - 1 := ret], top - 1), ret, p.top == 0)
  }

  function Fresh(size: nat, seed: int32): Pool {
    Pool(seed, seq(size, i => i), size)
  }

  class RandomPool {
    var mRand: Generator
    var mData: array<int>
    var mSize: nat
    var mTop: nat

    ghost predicate WellFormed()
      reads this, mRand, mData
    {
      mSize == mData.Length && Valid(Contents())
    }

    ghost function Contents(): Pool
      reads this, mRand, mData
    {
      Pool(mRand.mCurrent, mData[..], mTop)
    }

    constructor (size: nat, seed: int32)
      requires size > 0
      ensures WellFormed() && fresh(mRand) && fresh(mData)
      ensures Contents() == Fresh(size, seed)
    {
      mRand := new Generator(seed);
      mData := new int[size];
      mSize := size;
      mTop := size;
      new;
      for i := 0 to size
        invariant mSize == size == mData.Length && mTop == size && fresh(mData) && fresh(mRand)
        invariant mRand.mCurrent == seed
        invariant forall k :: 0 <= k < i ==> mData[k] == k
      {
        mData[i] := i;
      }
      assert mData[..] == seq(size, i => i);
    }

    method Get() returns (ret: int, shuffled: bool)
      requires WellFormed()
      modifies this, mRand, mData
      ensures WellFormed() && mRand == old(mRand) && mData == old(mData)
      ensures Drawn(Contents(), ret, shuffled) == Draw(old(Contents()))
    {
      if mTop == 0 {
        shuffled := true;
        mTop := mSize;
      } else {
        shuffled := false;
      }
      var r := mRand.Get();
      var entry := r % mTop;
      mTop := mTop - 1;
      ret := mData[entry];
      mData[entry] := mData[mTop];
      mData[mTop] := ret;
    }
  }

  // ---------------------------------------------------------------------------------------------
  // Whole runs

  /** The pool after `n` draws, and what the draw with 0-based number `n` returns. */
  function After(p: Pool, n: nat): (q: Pool)
    requires Valid(p)
    ensures Valid(q) && |q.data| == |p.data|
  {
    if n == 0 then p else Draw(After(p, n - 1)).pool
  }

  function DrawAt(p: Pool, n: nat): Drawn
    requires Valid(p)
  {
    Draw(After(p, n))
  }

  /** All of 0..n-1, each exactly once. */
  ghost predicate IsPermutation(s: seq<int>, n: nat) {
    && |s| == n
    && (forall i :: 0 <= i < n ==> 0 <= s[i] < n)
    && (forall i, j :: 0 <= i < j < n ==> s[i] != s[j])
  }

  lemma DrawKeepsPermutation(p: Pool)
    requires Valid(p) && IsPermutation(p.data, |p.data|)
    ensures IsPermutation(Draw(p).pool.data, |p.data|)
  {
  }

  lemma {:induction false} PoolStaysPermutation(size: nat, seed: int32, n: nat)
    requires size > 0
    ensures IsPermutation(After(Fresh(size, seed), n).data, size)
  {
    if n > 0 {
      PoolStaysPermutation(size, seed, n - 1);
      DrawKeepsPermutation(After(Fresh(size, seed), n - 1));
    }
  }

  /** The number of entries the next draw chooses among. */
  function Choices(p: Pool): nat {
    if p.top == 0 then |p.data| else p.top
  }

  /** A draw parks its result just behind the entries still to draw, and moves nothing further back. */
  lemma DrawParks(p: Pool)
    requires Valid(p)
    ensures var d := Draw(p);
      && d.pool.top == Choices(p) - 1
      && d.ret == d.pool.data[d.pool.top]
      && d.pool.data[Choices(p)..] == p.data[Choices(p)..]
      && d.shuffled == (p.top == 0)
  {
  }

  /** What the first `k` draws return. */
  function Returns(p: Pool, k: nat): (s: seq<int>)
    requires Valid(p)
    ensures |s| == k
  {
    if k == 0 then [] else Returns(p, k - 1) + [DrawAt(p, k - 1).ret]
  }

  /** Within a block, what was drawn accumulates, in reverse, behind the entries still to draw. */
  lemma {:induction false} BlockProgress(p: Pool, k: nat)
    requires Valid(p) && (p.top == 0 || p.top == |p.data|) && 1 <= k <= |p.data|
    ensures After(p, k).top == |p.data| - k
    ensures Returns(p, k) == Reversed(After(p, k).data[|p.data| - k..])
    ensures DrawAt(p, k - 1).shuffled == (k == 1 && p.top == 0)
  {
    hide Draw;
    hide Reversed;
    var q := After(p, k - 1);
    DrawParks(q);
    var tail := Draw(q).pool.data[|p.data| - k..];
    FirstComesLast(tail);
    if k > 1 {
      BlockProgress(p, k - 1);
      assert tail[1..] == q.data[|p.data| - (k - 1)..];
    } else {
      assert tail[1..] == [];
    }
    assert After(p, k) == Draw(q).pool;
  }

  lemma FirstComesLast(s: seq<int>)
    requires s != []
    ensures Reversed(s) == Reversed(s[1..]) + [s[0]]
    ensures Reversed<int>([]) == []
  {
  }

  lemma {:induction false} AfterSplit(p: Pool, m: nat, n: nat)
    requires Valid(p)
    ensures After(p, m + n) == After(After(p, m), n)
  {
    hide Draw;
    if n > 0 {
      AfterSplit(p, m, n - 1);
    }
  }

  /** The number of draws made before a block begins. */
  function Start(size: nat, block: nat): nat {
    if block == 0 then 0 else Start(size, block - 1) + size
  }

  lemma {:induction false} StartIsMultiple(size: nat, block: nat)
    ensures Start(size, block) == block * size
  {
    if block > 0 {
      StartIsMultiple(size, block - 1);
      assert block * size == (block - 1) * size + size;
    }
  }

  function BlockPool(size: nat, seed: int32, block: nat): (p: Pool)
    requires size > 0
    ensures Valid(p) && |p.data| == size
  {
    After(Fresh(size, seed), Start(size, block))
  }

  lemma {:induction false} BlockStart(size: nat, seed: int32, block: nat)
    requires size > 0
    ensures BlockPool(size, seed, block).top == (if block == 0 then size else 0)
  {
    hide Draw;
    if block > 0 {
      BlockStart(size, seed, block - 1);
      BlockProgress(BlockPool(size, seed, block - 1), size);
      AfterSplit(Fresh(size, seed), Start(size, block - 1), size);
    }
  }

  /** The values returned by the `size` consecutive draws that make up a block. */
  function Block(size: nat, seed: int32, block: nat): (s: seq<int>)
    requires size > 0
    ensures |s| == size
  {
    Returns(BlockPool(size, seed, block), size)
  }

  lemma {:induction false} ReturnsEntries(p: Pool, i: nat, k: nat)
    requires Valid(p) && i < k
    ensures Returns(p, k)[i] == DrawAt(p, i).ret
  {
    hide Draw;
    hide After;
    if i < k - 1 {
      ReturnsEntries(p, i, k - 1);
    }
  }

  lemma BlockEntries(size: nat, seed: int32, block: nat, i: nat)
    requires i < size
    ensures Block(size, seed, block)[i] == DrawAt(Fresh(size, seed), Start(size, block) + i).ret
  {
    hide Draw;
    ReturnsEntries(BlockPool(size, seed, block), i, size);
    AfterSplit(Fresh(size, seed), Start(size, block), i);
  }

  lemma BlockIsReversedPool(size: nat, seed: int32, block: nat)
    requires size > 0
    ensures Block(size, seed, block) == Reversed(After(Fresh(size, seed), Start(size, block) + size).data)
  {
    hide Draw;
    hide Returns;
    var p := BlockPool(size, seed, block);
    BlockStart(size, seed, block);
    BlockProgress(p, size);
    AfterSplit(Fresh(size, seed), Start(size, block), size);
    assert After(p, size).data[0..] == After(p, size).data;
  }

  lemma ReverseOfPermutation(s: seq<int>, n: nat)
    requires IsPermutation(s, n)
    ensures IsPermutation(Reversed(s), n)
  {
  }

  /**
   No number is drawn twice before all have been drawn: the `size` draws of every block are a
   permutation of 0..size-1.
   */
  lemma EveryBlockIsPermutation(size: nat, seed: int32, block: nat)
    requires size > 0
    ensures IsPermutation(Block(size, seed, block), size)
    ensures forall i: nat :: i < size ==> Block(size, seed, block)[i] == DrawAt(Fresh(size, seed), block * size + i).ret
  {
    hide Draw;
    var n := Start(size, block) + size;
    PoolStaysPermutation(size, seed, n);
    ReverseOfPermutation(After(Fresh(size, seed), n).data, size);
    BlockIsReversedPool(size, seed, block);
    StartIsMultiple(size, block);
    forall i: nat | i < size
      ensures Block(size, seed, block)[i] == DrawAt(Fresh(size, seed), block * size + i).ret
    {
      BlockEntries(size, seed, block, i);
    }
  }

  lemma ShuffledWithinBlock(size: nat, seed: int32, block: nat, i: nat)
    requires i < size
    ensures DrawAt(Fresh(size, seed), Start(size, block) + i).shuffled <==> block > 0 && i == 0
  {
    hide Draw;
    var p := BlockPool(size, seed, block);
    BlockStart(size, seed, block);
    BlockProgress(p, i + 1);
    AfterSplit(Fresh(size, seed), Start(size, block), i);
  }

  /** `shuffled` is reported exactly on draws number size+1, 2*size+1, ... (0-based: the positive multiples of size). */
  lemma ShuffledExactlyAtBlockStarts(size: nat, seed: int32, n: nat)
    requires size > 0
    ensures DrawAt(Fresh(size, seed), n).shuffled <==> n > 0 && n % size == 0
  {
    hide Draw;
    var block, i := n / size, n % size;
    StartIsMultiple(size, block);
    ShuffledWithinBlock(size, seed, block, i);
    assert n == Start(size, block) + i;
    if block > 0 {
      assert block * size >= size;
    }
  }

  // ---------------------------------------------------------------------------------------------
  // Every draw is the generator's choice

  lemma {:induction false} SeedAdvances(p: Pool, n: nat)
    requires Valid(p)
    ensures After(p, n).seed == State(p.seed, n)
    decreases n
  {
    if n > 0 {
      SeedAdvances(p, n - 1);
    }
  }

  /** The number the generator picks for draw n, among as many as there are. */
  function Pick(seed: int32, n: nat, choices: nat): (k: nat)
    requires choices > 0
    ensures k < choices
  {
    Output(State(seed, n + 1)) % choices
  }

  /** Draw n returns the entry that the generator's n-th number picks in the array as it is then. */
  lemma DrawIsPicked(p: Pool, n: nat)
    requires Valid(p)
    ensures var q := After(p, n);
      DrawAt(p, n).ret == q.data[Pick(p.seed, n, Choices(q))]
  {
    SeedAdvances(p, n);
  }

  // ---------------------------------------------------------------------------------------------
  // Choices and permutations

  /** One choice for each draw of a block: the first among n numbers, the next among n - 1, and so on. */
  predicate AreChoices(picks: seq<nat>, n: nat) {
    |picks| <= n && forall k :: 0 <= k < |picks| ==> picks[k] < n - k
  }

  /** What is left of the entries still to draw: the last one takes the place of the one drawn. */
  function Remaining(data: seq<int>, entry: nat): (r: seq<int>)
    requires entry < |data|
    ensures |r| == |data| - 1
  {
    data[entry := data[|data| - 1]][..|data| - 1]
  }

  /** The entries drawn when the choices are given. */
  function Dealt(data: seq<int>, picks: seq<nat>): (s: seq<int>)
    requires AreChoices(picks, |data|)
    ensures |s| == |picks|
    decreases |picks|
  {
    if picks == [] then []
    else [data[picks[0]]] + Dealt(Remaining(data, picks[0]), picks[1..])
  }

  predicate Distinct(s: seq<int>) {
    forall i, j :: 0 <= i < j < |s| ==> s[i] != s[j]
  }

  /** Different choices deal differently. */
  lemma {:induction false} DealtIsInjective(data: seq<int>, picks: seq<nat>, others: seq<nat>)
    requires Distinct(data) && AreChoices(picks, |data|) && AreChoices(others, |data|) && |picks| == |others|
    requires Dealt(data, picks) == Dealt(data, others)
    ensures picks == others
    decreases |picks|
  {
    if picks != [] {
      assert data[picks[0]] == Dealt(data, picks)[0] && data[others[0]] == Dealt(data, others)[0];
      assert picks[0] == others[0];
      assert Dealt(data, picks)[1..] == Dealt(Remaining(data, picks[0]), picks[1..]);
      assert Dealt(data, others)[1..] == Dealt(Remaining(data, others[0]), others[1..]);
      DealtIsInjective(Remaining(data, picks[0]), picks[1..], others[1..]);
      assert picks == [picks[0]] + picks[1..] && others == [others[0]] + others[1..];
    }
  }

  lemma RemainingEntries(data: seq<int>, entry: nat)
    requires entry < |data|
    ensures multiset(data) == multiset(Remaining(data, entry)) + multiset{data[entry]}
  {
    var last := |data| - 1;
    var swapped := data[entry := data[last]];
    assert data == data[..last] + [data[last]];
    if entry < last {
      assert Remaining(data, entry) == data[..last][entry := data[last]];
      assert multiset(data[..last][entry := data[last]])
        == multiset(data[..last]) - multiset{data[entry]} + multiset{data[last]};
    } else {
      assert Remaining(data, entry) == data[..last];
    }
  }

  lemma FirstApart(s: seq<int>)
    requires s != []
    ensures multiset(s) == multiset{s[0]} + multiset(s[1..])
  {
    assert s == [s[0]] + s[1..];
  }

  lemma RestPermutes(data: seq<int>, entry: nat, order: seq<int>)
    requires entry < |data| && order != [] && data[entry] == order[0] && multiset(order) == multiset(data)
    ensures multiset(order[1..]) == multiset(Remaining(data, entry))
  {
    FirstApart(order);
    RemainingEntries(data, entry);
    assert multiset(order[1..]) == multiset(data) - multiset{data[entry]};
  }

  /** Every order of the entries is dealt by some choices. */
  lemma {:induction false} DealtIsOnto(data: seq<int>, order: seq<int>) returns (picks: seq<nat>)
    requires multiset(order) == multiset(data)
    ensures |picks| == |data| && AreChoices(picks, |data|) && Dealt(data, picks) == order
    decreases |order|
  {
    assert |multiset(order)| == |order| && |multiset(data)| == |data|;
    if order == [] {
      picks := [];
    } else {
      assert order[0] in multiset(order);
      var entry: nat :| entry < |data| && data[entry] == order[0];
      RestPermutes(data, entry, order);
      hide Remaining;
      var rest := DealtIsOnto(Remaining(data, entry), order[1..]);
      picks := [entry] + rest;
      assert picks[1..] == rest && order == [order[0]] + order[1..];
    }
  }

  /** What is dealt are entries, each as often as it is there. */
  lemma {:induction false} DealtAreEntries(data: seq<int>, picks: seq<nat>)
    requires AreChoices(picks, |data|) && |picks| == |data|
    ensures multiset(Dealt(data, picks)) == multiset(data)
    decreases |picks|
  {
    if picks != [] {
      RemainingEntries(data, picks[0]);
      DealtAreEntries(Remaining(data, picks[0]), picks[1..]);
      assert multiset([data[picks[0]]]) == multiset{data[picks[0]]};
    }
  }

  /** The choices the generator makes from a state on. */
  function Picks(seed: int32, n: nat, k: nat): (picks: seq<nat>)
    requires k <= n
    ensures AreChoices(picks, n) && |picks| == k
    decreases k
  {
    if k == 0 then [] else [Output(Next(seed)) % n] + Picks(Next(seed), n - 1, k - 1)
  }

  lemma {:induction false} PicksAre(seed: int32, n: nat, k: nat, i: nat)
    requires i < k <= n
    ensures Picks(seed, n, k)[i] == Pick(seed, i, n - i)
    decreases k
  {
    hide Next;
    hide Output;
    assert State(seed, 0) == seed && State(seed, 1) == Next(State(seed, 0));
    if i > 0 {
      PicksAre(Next(seed), n - 1, k - 1, i - 1);
      StateSplit(seed, 1, i);
      assert n - 1 - (i - 1) == n - i;
    }
  }

  lemma {:induction false} ReturnsFront(p: Pool, k: nat)
    requires Valid(p) && k > 0
    ensures Returns(p, k) == [Draw(p).ret] + Returns(Draw(p).pool, k - 1)
    decreases k
  {
    hide Draw;
    assert After(p, 0) == p && After(p, 1) == Draw(After(p, 0)).pool;
    if k > 1 {
      ReturnsFront(p, k - 1);
      AfterSplit(p, 1, k - 2);
      assert 1 + (k - 2) == k - 1;
    }
  }

  /** What a draw takes and leaves of the entries still to draw. */
  lemma DrawTakes(p: Pool)
    requires Valid(p)
    ensures var c, d := Choices(p), Draw(p);
      var entry := Output(Next(p.seed)) % c;
      && d.ret == p.data[entry] && d.pool.seed == Next(p.seed) && d.pool.top == c - 1
      && d.pool.data[..c - 1] == Remaining(p.data[..c], entry)
  {
    hide Next;
    hide Output;
  }

  /** From any pool: what the next draws return is dealt by the generator's choices among the entries still to draw. */
  lemma {:induction false} DrawsAreDealt(p: Pool, k: nat)
    requires Valid(p) && k <= Choices(p)
    ensures Returns(p, k) == Dealt(p.data[..Choices(p)], Picks(p.seed, Choices(p), k))
    decreases k
  {
    hide Draw;
    hide Next;
    hide Output;
    if k > 0 {
      var c, q := Choices(p), Draw(p).pool;
      DrawTakes(p);
      ReturnsFront(p, k);
      if k > 1 {
        DrawsAreDealt(q, k - 1);
      }
    }
  }

  /** A block is dealt by the choices the generator makes in it, from the array as the block finds it. */
  lemma BlockIsDealt(size: nat, seed: int32, block: nat)
    requires size > 0
    ensures Block(size, seed, block)
      == Dealt(BlockPool(size, seed, block).data, Picks(State(seed, block * size), size, size))
  {
    hide Draw;
    var p := BlockPool(size, seed, block);
    BlockStart(size, seed, block);
    StartIsMultiple(size, block);
    SeedAdvances(Fresh(size, seed), block * size);
    DrawsAreDealt(p, size);
    assert p.data[..size] == p.data;
  }

  predicate IsDealtBy(data: seq<int>, order: seq<int>, picks: seq<nat>) {
    |picks| == |data| && AreChoices(picks, |data|) && Dealt(data, picks) == order
  }

  /** So choices and orders correspond: each order of distinct entries is dealt by exactly one list of choices. */
  lemma OneListOfChoices(data: seq<int>, order: seq<int>) returns (picks: seq<nat>)
    requires Distinct(data) && multiset(order) == multiset(data)
    ensures IsDealtBy(data, order, picks)
    ensures forall others: seq<nat> :: IsDealtBy(data, order, others) ==> others == picks
  {
    picks := DealtIsOnto(data, order);
    forall others: seq<nat> | IsDealtBy(data, order, others) ensures others == picks {
      DealtIsInjective(data, picks, others);
    }
  }

  // ---------------------------------------------------------------------------------------------
  // An example

  lemma OneMoreDraw(p: Pool, k: nat, q: Pool, r: Pool, ret: int, before: seq<int>)
    requires Valid(p) && Valid(q) && After(p, k) == q && Returns(p, k) == before
    requires Draw(q).pool == r && Draw(q).ret == ret
    ensures After(p, k + 1) == r && Returns(p, k + 1) == before + [ret]
  {
    hide Draw;
  }

  lemma NextIs(s: int32, wraps: int, rest: nat)
    requires s as int * MULTIPLIER + INCREMENT == wraps * TWO_TO_THE_32 + rest && rest < TWO_TO_THE_32
    ensures Next(s) as int == if rest < TWO_TO_THE_31 then rest else rest - TWO_TO_THE_32
  {
  }

  lemma FirstStates()
    ensures Next(0) == 2531011
    ensures Next(2531011) == 505908858
  {
    hide Next;
    NextIs(0, 0, 2531011);
    NextIs(2531011, 126, 505908858);
  }

  lemma NextStates()
    ensures Next(505908858) == -755606699
    ensures Next(-755606699) == 159719620
  {
    hide Next;
    NextIs(505908858, 25208, 3539360597);
    NextIs(-755606699, -37651, 159719620);
  }

  lemma Draw0()
    ensures Draw(Pool(0, [0, 1, 2, 3], 4))
      == Drawn(Pool(2531011, [0, 1, 2, 3], 3), 3, false)
  {
    FirstStates();
    hide Next;
  }

  lemma Draw1()
    ensures Draw(Pool(2531011, [0, 1, 2, 3], 3))
      == Drawn(Pool(505908858, [2, 1, 0, 3], 2), 0, false)
  {
    FirstStates();
    hide Next;
  }

  lemma Draw2()
    ensures Draw(Pool(505908858, [2, 1, 0, 3], 2))
      == Drawn(Pool(-755606699, [2, 1, 0, 3], 1), 1, false)
  {
    NextStates();
    hide Next;
  }

  lemma Draw3()
    ensures Draw(Pool(-755606699, [2, 1, 0, 3], 1))
      == Drawn(Pool(159719620, [2, 1, 0, 3], 0), 2, false)
  {
    NextStates();
    hide Next;
  }

  /** The numbers below four, as they come with the seed 0. */
  lemma FourFromZero()
    ensures Returns(Fresh(4, 0), 4) == [3, 0, 1, 2]
  {
    var p := Fresh(4, 0);
    assert p == Pool(0, [0, 1, 2, 3], 4);
    assert After(p, 0) == p && Returns(p, 0) == [];
    hide Draw, After, Returns;
    Draw0();
    OneMoreDraw(p, 0, Pool(0, [0, 1, 2, 3], 4), Pool(2531011, [0, 1, 2, 3], 3), 3, []);
    Draw1();
    OneMoreDraw(p, 1, Pool(2531011, [0, 1, 2, 3], 3), Pool(505908858, [2, 1, 0, 3], 2), 0, [3]);
    Draw2();
    OneMoreDraw(p, 2, Pool(505908858, [2, 1, 0, 3], 2), Pool(-755606699, [2, 1, 0, 3], 1), 1, [3, 0]);
    Draw3();
    OneMoreDraw(p, 3, Pool(-755606699, [2, 1, 0, 3], 1), Pool(159719620, [2, 1, 0, 3], 0), 2, [3, 0, 1]);
  }
}
