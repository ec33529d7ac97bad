/** The gallery carousel: a current index over a fixed, non-empty list of images,
    advanced by an interval tick and set directly by an indicator click. */
module Gallery {
  import opened DivMod

  /** The gallery shows four images. */
  const ImageCount: nat := 4

  /** The index after one tick: `(p + 1) % imgs.length`. */
  function Next(index: nat, n: nat): (r: nat)
    requires n > 0
    ensures r < n
    ensures index < n - 1 ==> r == index + 1
    ensures index == n - 1 ==> r == 0
  {
    (index + 1) % n
  }

  /** The index after `k` ticks from `index`. */
  function AdvanceBy(index: nat, k: nat, n: nat): nat
    requires n > 0
  {
    if k == 0 then index else Next(AdvanceBy(index, k - 1, n), n)
  }

  /** `k` ticks move a valid index `k` places forward, wrapping around. */
  lemma {:induction false} AdvanceByWraps(index: nat, k: nat, n: nat)
    requires n > 0 && index < n
    ensures AdvanceBy(index, k, n) == (index + k) % n
  {
    if k > 0 {
      AdvanceByWraps(index, k - 1, n);
      var a := index + k - 1;
      ModSucc(a, n);
    }
  }

  /** `((a % n) + 1) % n == (a + 1) % n`. */
  lemma ModSucc(a: nat, n: nat)
    requires n > 0
    ensures ((a % n) + 1) % n == (a + 1) % n
  {
    var q, r := a / n, a % n;
    assert a + 1 == q * n + (r + 1);
    if r + 1 < n {
      DivUnique(a + 1, n, q, r + 1);
      DivUnique(r + 1, n, 0, r + 1);
    } else {
      Distribute(q, 1, n);
      DivUnique(a + 1, n, q + 1, 0);
      DivUnique(r + 1, n, 1, 0);
    }
  }

  /** Moving a valid index `k` places forward, wrapping around, lands on it again
      exactly when `k` is a multiple of `n`. */
  lemma ShiftReturns(index: nat, k: nat, n: nat)
    requires n > 0 && index < n
    ensures (index + k) % n == index <==> k % n == 0
  {
    var q, r := k / n, k % n;
    assert index + k == q * n + (index + r);
    if index + r < n {
      DivUnique(index + k, n, q, index + r);
    } else {
      Distribute(q, 1, n);
      DivUnique(index + k, n, q + 1, index + r - n);
    }
  }

  /** From a valid index, `k` ticks come back to it exactly when `k` is a
      multiple of the number of images; in particular `n` ticks do. */
  lemma {:induction false} FullCycle(index: nat, k: nat, n: nat)
    requires n > 0 && index < n
    ensures AdvanceBy(index, k, n) == index <==> k % n == 0
    ensures AdvanceBy(index, n, n) == index
  {
    AdvanceByWraps(index, k, n);
    ShiftReturns(index, k, n);
    AdvanceByWraps(index, n, n);
    DivUnique(index + n, n, 1, index);
  }

  /** Which of the `n` images (and indicators) are drawn active: position `i` is
      active when `i === index`. A valid index makes exactly one position active,
      its own; an index out of range would make none. */
  function ActiveMask(index: nat, n: nat): (mask: seq<bool>)
    ensures |mask| == n
    ensures index < n ==> mask[index] && CountActive(mask) == 1
    ensures index >= n ==> CountActive(mask) == 0
  {
    var mask := seq(n, i => i == index);
    CountSingle(mask, index);
    mask
  }

  /** How many positions of `mask` are active. */
  function CountActive(mask: seq<bool>): nat {
    if mask == [] then 0 else CountActive(mask[..|mask| - 1]) + (if mask[|mask| - 1] then 1 else 0)
  }

  /** A mask that is true at position `k` alone has exactly one active position. */
  lemma {:induction false} CountSingle(mask: seq<bool>, k: nat)
    requires forall i :: 0 <= i < |mask| ==> (mask[i] <==> i == k)
    ensures CountActive(mask) == if k < |mask| then 1 else 0
  {
    if mask != [] {
      CountSingle(mask[..|mask| - 1], k);
    }
  }

  /** The carousel's state cell: `const [index, setIndex] = useState(0)`. */
  class Carousel {
    const n: nat
    var index: nat

    ghost predicate Valid()
      reads this
    {
      n > 0 && index < n
    }

    /** Mounting the gallery over `imageCount` images starts at the first. */
    constructor (imageCount: nat)
      requires imageCount > 0
      ensures Valid() && n == imageCount && index == 0
    {
      n := imageCount;
      index := 0;
    }

    /** One interval tick. */
    method Advance()
      requires Valid()
      modifies this
      ensures Valid() && index == Next(old(index), n)
    {
      index := (index + 1) % n;
    }

    /** A click on indicator `i`; an indicator exists for each `i` in `0..n-1`. */
    method Select(i: nat)
      requires Valid() && i < n
      modifies this
      ensures Valid() && index == i
    {
      index := i;
    }

    /** Which images and indicators are drawn active in the current state:
        exactly one, the one at `index`. */
    function Active(): (mask: seq<bool>)
      reads this
      requires Valid()
      ensures |mask| == n && mask[index] && CountActive(mask) == 1
    {
      ActiveMask(index, n)
    }
  }

  /** The gallery as mounted: four ticks from the start come back to the first
      image, and a click on the third indicator shows the third image. */
  method GalleryRun()
  {
    var c := new Carousel(ImageCount);
    c.Advance();
    c.Advance();
    assert c.index == 2;
    c.Advance();
    c.Advance();
    assert c.index == 0;
    c.Select(2);
    assert c.index == 2;
    var mask := c.Active();
    assert mask == [false, false, true, false];
  }
}
