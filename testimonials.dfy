/**
 * The testimonial carousel: an index into a fixed list of `count`
 * testimonials, moved by the previous/next buttons, the dots, the arrow
 * keys and the auto-play timer.
 */
module Testimonials {
  import opened Wrappers

  /** `hasMany`: controls, dots, key handling and auto-play only act with two or more items. */
  predicate HasMany(count: nat) {
    count > 1
  }

  /** The index `next` moves to: one further, the last wrapping round to the first. */
  function NextIndex(i: nat, count: nat): (r: nat)
    requires i < count
    ensures r < count
    ensures HasMany(count) ==> (if i == count - 1 then r == 0 else r == i + 1)
    ensures !HasMany(count) ==> r == i
  {
    if !HasMany(count) then i else (i + 1) % count
  }

  /** The index `prev` moves to: one back, the first wrapping round to the last. */
  function PrevIndex(i: nat, count: nat): (r: nat)
    requires i < count
    ensures r < count
    ensures HasMany(count) ==> (if i == 0 then r == count - 1 else r == i - 1)
    ensures !HasMany(count) ==> r == i
  {
    if !HasMany(count) then i else (i - 1 + count) % count
  }

  /** `prev` undoes `next`. */
  lemma PrevAfterNext(i: nat, count: nat)
    requires i < count
    ensures PrevIndex(NextIndex(i, count), count) == i
  {
  }

  /** `next` undoes `prev`. */
  lemma NextAfterPrev(i: nat, count: nat)
    requires i < count
    ensures NextIndex(PrevIndex(i, count), count) == i
  {
  }

  /** What the key handler did: the new index and whether the default action was prevented. */
  datatype KeyOutcome = KeyOutcome(index: nat, prevented: bool)

  /** `onKeyDown`: the right arrow acts as `next`, the left arrow as `prev`, any other key does nothing. */
  function OnKeyDown(i: nat, count: nat, key: string): (r: KeyOutcome)
    requires i < count
    ensures r.index < count
    ensures key == "ArrowRight" ==> r.index == NextIndex(i, count)
    ensures key == "ArrowLeft" ==> r.index == PrevIndex(i, count)
    ensures key != "ArrowRight" && key != "ArrowLeft" ==> r.index == i
    ensures r.prevented <==> HasMany(count) && (key == "ArrowRight" || key == "ArrowLeft")
  {
    if !HasMany(count) then KeyOutcome(i, false)
    else if key == "ArrowRight" then KeyOutcome(NextIndex(i, count), true)
    else if key == "ArrowLeft" then KeyOutcome(PrevIndex(i, count), true)
    else KeyOutcome(i, false)
  }

  /**
   * The period handed to `setInterval`, or `None` when the effect starts no
   * timer: the requested period, but never less than 3000 ms.
   */
  function AutoPlayPeriod(autoPlay: bool, intervalMs: int, count: nat): (p: Option<int>)
    ensures p.Some? <==> autoPlay && HasMany(count)
    ensures p.Some? ==> p.value >= 3000 && p.value >= intervalMs
    ensures p.Some? ==> p.value == 3000 || p.value == intervalMs
  {
    if !autoPlay || !HasMany(count) then None
    else if intervalMs > 3000 then Some(intervalMs) else Some(3000)
  }

  /** `aria-selected` of each rendered dot; the dots exist only when `hasMany`. */
  function DotsSelected(count: nat, index: nat): (sel: seq<bool>)
    ensures |sel| == if HasMany(count) then count else 0
  {
    if HasMany(count) then seq(count, k => k == index) else []
  }

  /** With two or more items exactly one dot is selected: the one at the current index. */
  lemma ExactlyOneDotSelected(count: nat, index: nat)
    requires index < count && HasMany(count)
    ensures var sel := DotsSelected(count, index);
            (set k | 0 <= k < |sel| && sel[k]) == {index}
  {
  }

  /** An interaction with the carousel. */
  datatype Event =
    | NextClick
    | PrevClick
    | DotClick(dot: nat)
    | KeyDown(key: string)
    | Tick    // the auto-play interval fired and called `next`

  /** Dots are rendered one per testimonial, so a dot click names an existing index. */
  predicate Possible(e: Event, count: nat) {
    e.DotClick? ==> e.dot < count
  }

  function Step(i: nat, count: nat, e: Event): (r: nat)
    requires i < count && Possible(e, count)
    ensures r < count
  {
    match e
    case NextClick => NextIndex(i, count)
    case PrevClick => PrevIndex(i, count)
    case DotClick(d) => d
    case KeyDown(key) => OnKeyDown(i, count, key).index
    case Tick => NextIndex(i, count)
  }

  /** The index after a sequence of interactions; it never leaves `[0, count)`. */
  function Run(i: nat, count: nat, events: seq<Event>): (r: nat)
    requires i < count
    requires forall k :: 0 <= k < |events| ==> Possible(events[k], count)
    ensures r < count
    decreases |events|
  {
    if events == [] then i else Run(Step(i, count, events[0]), count, events[1..])
  }

  /** With a single testimonial nothing the user or the timer does moves the index. */
  lemma {:induction false} SingleItemNeverMoves(i: nat, count: nat, events: seq<Event>)
    requires i < count && !HasMany(count)
    requires forall k :: 0 <= k < |events| ==> Possible(events[k], count)
    ensures Run(i, count, events) == i
  {
  }

  function Repeat(e: Event, n: nat): (r: seq<Event>)
    ensures |r| == n && forall k :: 0 <= k < n ==> r[k] == e
  {
    if n == 0 then [] else [e] + Repeat(e, n - 1)
  }

  /** `n` presses of next advance the index by `n` places round the circle. */
  lemma {:induction false} NextClicksRotate(i: nat, count: nat, n: nat)
    requires i < count && HasMany(count)
    ensures Run(i, count, Repeat(NextClick, n)) == (i + n) % count
    decreases n
  {
    if n > 0 {
      var j := NextIndex(i, count);
      assert Repeat(NextClick, n)[1..] == Repeat(NextClick, n - 1);
      NextClicksRotate(j, count, n - 1);
      assert j == (i + 1) % count;
      assert (j + (n - 1)) % count == (i + n) % count by {
        ModAddOne(i, count, n - 1);
      }
    }
  }

  lemma ModAddOne(i: nat, count: nat, m: nat)
    requires count > 0
    ensures ((i + 1) % count + m) % count == (i + 1 + m) % count
  {
    var q := (i + 1) / count;
    assert i + 1 == q * count + (i + 1) % count;
    assert (i + 1 + m) == q * count + ((i + 1) % count + m);
    ModMultiple(q, count, (i + 1) % count + m);
  }

  lemma {:induction false} ModMultiple(q: nat, count: nat, x: nat)
    requires count > 0
    ensures (q * count + x) % count == x % count
    decreases q
  {
    if q > 0 {
      var y := (q - 1) * count + x;
      ModMultiple(q - 1, count, x);
      assert q * count + x == y + count;
      ModAddCount(y, count);
    }
  }

  lemma ModAddCount(y: nat, count: nat)
    requires count > 0
    ensures (y + count) % count == y % count
  {
    var r := y % count;
    assert y == (y / count) * count + r;
    assert y + count == (y / count + 1) * count + r;
    DivModUnique(y + count, count, y / count + 1, r);
  }

  /** A quotient-remainder decomposition with the remainder in range is the one `/` and `%` give. */
  lemma DivModUnique(n: int, c: int, q: int, r: int)
    requires c > 0 && 0 <= r < c && n == q * c + r
    ensures n % c == r
  {
    var q2, r2 := n / c, n % c;
    assert q * c + r == q2 * c + r2;
    assert (q - q2) * c == r2 - r;
    MulSign(q - q2, c);
  }

  lemma MulSign(d: int, c: int)
    requires c > 0
    ensures d >= 1 ==> d * c >= c
    ensures d <= -1 ==> d * c <= -c
  {
  }

  /** The carousel component's state: the `index` hook over `count` testimonials. */
  class Carousel {
    const count: nat
    const autoPlay: bool
    const autoPlayIntervalMs: int
    var index: nat

    ghost predicate Valid()
      reads this
    {
      index < count
    }

    /** First render: the index hook starts at 0; rendering reads `testimonials[index]`, so the list is non-empty. */
    constructor (count: nat, autoPlay: bool, autoPlayIntervalMs: int)
      requires count >= 1
      ensures Valid() && index == 0
      ensures this.count == count && this.autoPlay == autoPlay
      ensures this.autoPlayIntervalMs == autoPlayIntervalMs
    {
      this.count := count;
      this.autoPlay := autoPlay;
      this.autoPlayIntervalMs := autoPlayIntervalMs;
      index := 0;
    }

    /** The next button, and the body of every auto-play tick. */
    method Next()
      requires Valid()
      modifies this
      ensures Valid() && index == NextIndex(old(index), count)
    {
      if !HasMany(count) {
        return;
      }
      index := (index + 1) % count;
    }

    /** The previous button. */
    method Prev()
      requires Valid()
      modifies this
      ensures Valid() && index == PrevIndex(old(index), count)
    {
      if !HasMany(count) {
        return;
      }
      index := (index - 1 + count) % count;
    }

    /** A click on dot `i`. */
    method GoTo(i: nat)
      requires Valid() && i < count
      modifies this
      ensures Valid() && index == i
    {
      index := i;
    }

    /** The carousel's key handler; reports whether it called `preventDefault`. */
    method KeyDown(key: string) returns (prevented: bool)
      requires Valid()
      modifies this
      ensures Valid()
      ensures index == OnKeyDown(old(index), count, key).index
      ensures prevented == OnKeyDown(old(index), count, key).prevented
    {
      prevented := false;
      if !HasMany(count) {
        return;
      }
      if key == "ArrowRight" {
        prevented := true;
        Next();
      } else if key == "ArrowLeft" {
        prevented := true;
        Prev();
      }
    }

    /** One firing of the auto-play interval, which exists only while a period is set. */
    method Tick()
      requires Valid() && AutoPlayPeriod(autoPlay, autoPlayIntervalMs, count).Some?
      modifies this
      ensures Valid() && index == NextIndex(old(index), count)
    {
      Next();
    }
  }
}
