/** Where skip pointers and locators point to, in closed form. */
module BlockIndexEffects {
  import opened Basics
  import opened Powers
  import opened BlockIndexes

  // ----- skip pointers

  /** The largest power of two that divides a number. */
  function LowBit(n: nat): (b: nat)
    requires 0 < n
    ensures 0 < b <= n
  {
    if n % 2 == 1 then 1 else 2 * LowBit(n / 2)
  }

  lemma {:induction false} LowBitDivides(n: nat) returns (k: nat)
    requires 0 < n
    ensures LowBit(n) == Pow2(k) && n % (2 * Pow2(k)) == Pow2(k)
  {
    if n % 2 == 1 {
      k := 0;
    } else {
      var j := LowBitDivides(n / 2);
      k := j + 1;
      DoubledRemainder(n / 2, 2 * Pow2(j), Pow2(j));
    }
  }

  lemma DoubledRemainder(n: nat, d: nat, r: nat)
    requires 0 < d && n % d == r
    ensures 2 * n % (2 * d) == 2 * r
  {
    DivUnique(2 * n, 2 * d, n / d, 2 * r);
  }

  lemma {:induction false} AndSelf(x: nat)
    ensures And(x, x) == x
  {
    if x != 0 {
      AndSelf(x / 2);
    }
  }

  /** Clearing the lowest bit takes off that power of two. */
  lemma {:induction false} InvertedExactly(n: nat)
    requires 0 < n
    ensures InvertLowestOne(n) == n - LowBit(n)
  {
    if n % 2 == 1 {
      AndSelf(n / 2);
    } else {
      InvertedExactly(n / 2);
      assert (n - 1) / 2 == n / 2 - 1;
    }
  }

  lemma InvertedZero()
    ensures InvertLowestOne(0) == 0
  {
  }

  /** From an even height a skip pointer goes back by the largest power of two that divides it. From an odd one it
      goes to one above where two such steps from the even height below it lead. */
  lemma SkipExactly(h: nat)
    requires 2 <= h
    ensures h % 2 == 0 ==> GetSkipHeight(h) == h - LowBit(h)
    ensures h % 2 == 1 ==>
      var once := h - 1 - LowBit(h - 1);
      GetSkipHeight(h) == if once == 0 then 1 else once - LowBit(once) + 1
  {
    hide InvertLowestOne;
    hide LowBit;
    if h % 2 == 0 {
      InvertedExactly(h);
    } else {
      InvertedExactly(h - 1);
      InvertedZero();
      var once := h - 1 - LowBit(h - 1);
      if once != 0 {
        InvertedExactly(once);
      }
    }
  }

  // ----- locators

  /** How far back entry `i` of a locator lies: the first twelve one by one, then doubling. */
  function Back(i: nat): nat {
    if i <= 11 then i else 9 + Pow2(i - 10)
  }

  function StepAt(count: nat): (step: nat)
    ensures 1 <= step
  {
    if count <= 10 then 1 else Pow2(count - 10)
  }

  lemma BackNext(i: nat)
    ensures Back(i + 1) == Back(i) + StepAt(i)
    ensures StepAt(i + 1) == if i + 1 > 10 then StepAt(i) * 2 else StepAt(i)
  {
    if i == 11 {
      assert Pow2(1) == 2 && Pow2(2) == 4;
    }
  }

  lemma {:induction false} LocatorFrom(top: nat, count: nat, i: nat)
    requires count == 0 || Back(count - 1) < top
    ensures var r := LocatorHeights(Max(0, top - Back(count)), StepAt(count), count);
      && (i < |r| ==> r[i] == Max(0, top - Back(count + i)))
      && (i < |r| <==> i == 0 || Back(count + i - 1) < top)
    decreases top - Back(count), i
  {
    hide Back;
    hide StepAt;
    if i != 0 {
      BackNext(count);
      if Back(count) < top {
        LocatorFrom(top, count + 1, i - 1);
      } else {
        BackGrows(count, count + i - 1);
      }
    }
  }

  lemma {:induction false} BackGrows(i: nat, j: nat)
    requires i <= j
    ensures Back(i) <= Back(j)
  {
    if i != j {
      BackGrows(i, j - 1);
      BackNext(j - 1);
    }
  }

  /** Entry `i` of a locator is at the height `Back(i)` below the start, but not below 0; there is such an entry just
      if the one before it is above 0. So there are about as many as the height has bits, and eleven more. */
  lemma LocatorExactly(top: nat, i: nat)
    ensures var r := LocatorHeights(top, 1, 0);
      && (i < |r| ==> r[i] == Max(0, top - Back(i)))
      && (i < |r| <==> i == 0 || Back(i - 1) < top)
  {
    LocatorFrom(top, 0, i);
  }

  lemma LocatorIsShort(top: nat, bits: nat)
    requires top < Pow2(bits)
    ensures |LocatorHeights(top, 1, 0)| <= bits + 11
  {
    LocatorExactly(top, bits + 11);
  }
}
