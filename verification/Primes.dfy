/** The first sixty-four primes, from which the digest's constants are derived. */
module Primes {
  import opened Arithmetic

  const PRIMES_FROM_2: seq<nat> := [2, 3, 5, 7, 11, 13, 17, 19, 23, 29, 31, 37, 41, 43, 47, 53]
  const PRIMES_FROM_59: seq<nat> := [59, 61, 67, 71, 73, 79, 83, 89, 97, 101, 103, 107, 109, 113, 127, 131]
  const PRIMES_FROM_137: seq<nat> :=
    [137, 139, 149, 151, 157, 163, 167, 173, 179, 181, 191, 193, 197, 199, 211, 223]
  const PRIMES_FROM_227: seq<nat> :=
    [227, 229, 233, 239, 241, 251, 257, 263, 269, 271, 277, 281, 283, 293, 307, 311]

  const FIRST_PRIMES: seq<nat> := PRIMES_FROM_2 + PRIMES_FROM_59 + PRIMES_FROM_137 + PRIMES_FROM_227

  const LAST_PRIME: nat := 311

  ghost predicate IsPrime(n: nat) {
    n >= 2 && forall d :: 2 <= d < n ==> n % d != 0
  }

  // ---------------------------------------------------------------- primes below 19 * 19

  /** Divisible by none of the primes below 19. */
  predicate Rough(n: nat) {
    n % 2 != 0 && n % 3 != 0 && n % 5 != 0 && n % 7 != 0 && n % 11 != 0 && n % 13 != 0 && n % 17 != 0
  }

  lemma DividesThrough(n: nat, m: nat, p: nat)
    requires p > 0 && m > 0 && n % m == 0 && m % p == 0
    ensures n % p == 0
  {
    var a, b := n / m, m / p;
    assert n == p * (a * b) by {
      assert n == a * m && m == b * p;
      assert a * (b * p) == p * (a * b);
    }
    MultipleDivides(p, a * b);
  }

  lemma SmallFactor(m: nat)
    requires 2 <= m < 19
    ensures !Rough(m)
  {
  }

  lemma RoughStays(n: nat, m: nat)
    requires m > 0 && n % m == 0 && Rough(n)
    ensures Rough(m)
  {
    forall p | p in {2, 3, 5, 7, 11, 13, 17} && m % p == 0
      ensures n % p == 0
    {
      DividesThrough(n, m, p);
    }
  }

  /** From 19 to 360 the primes are the rough numbers. */
  lemma RoughIsPrime(n: nat)
    requires 19 <= n < 361
    ensures IsPrime(n) <==> Rough(n)
  {
    if Rough(n) {
      forall d | 2 <= d < n
        ensures n % d != 0
      {
        if n % d == 0 {
          var e := n / d;
          assert n == d * e;
          CoFactor(n, d, e);
          var m := if d < 19 then d else e;
          RoughStays(n, m);
          SmallFactor(m);
        }
      }
    }
  }

  lemma CoFactor(n: nat, d: nat, e: nat)
    requires n == d * e && 2 <= d < n < 361
    ensures 2 <= e && n % e == 0 && (d >= 19 ==> e < 19)
  {
    ProductGrows(d, e, 19);
    MultipleDivides(e, d);
  }

  lemma SmallPrimes(n: nat)
    requires n < 19
    ensures IsPrime(n) <==> n in {2, 3, 5, 7, 11, 13, 17}
  {
    if n in {2, 3, 5, 7, 11, 13, 17} {
      assert forall d :: 2 <= d < n ==> n % d != 0;
    } else if n >= 2 {
      assert n % 2 == 0 || n % 3 == 0;
    }
  }

  // ---------------------------------------------------------------- the list is complete

  // Thirty numbers at a time: eight of them are divisible by none of 2, 3 and 5.

  lemma RoughFrom19(n: nat)
    requires 19 <= n < 30
    ensures Rough(n) <==> n in {19, 23, 29}
  {
    assert n % 2 == 0 || n % 3 == 0 || n % 5 == 0 || n in {19, 23, 29};
  }

  lemma RoughFrom30(n: nat)
    requires 30 <= n < 60
    ensures Rough(n) <==> n in {31, 37, 41, 43, 47, 53, 59}
  {
    assert n % 2 == 0 || n % 3 == 0 || n % 5 == 0 || n in {31, 37, 41, 43, 47, 49, 53, 59};
  }

  lemma RoughFrom60(n: nat)
    requires 60 <= n < 90
    ensures Rough(n) <==> n in {61, 67, 71, 73, 79, 83, 89}
  {
    assert n % 2 == 0 || n % 3 == 0 || n % 5 == 0 || n in {61, 67, 71, 73, 77, 79, 83, 89};
  }

  lemma RoughFrom90(n: nat)
    requires 90 <= n < 120
    ensures Rough(n) <==> n in {97, 101, 103, 107, 109, 113}
  {
    assert n % 2 == 0 || n % 3 == 0 || n % 5 == 0 || n in {91, 97, 101, 103, 107, 109, 113, 119};
  }

  lemma RoughFrom120(n: nat)
    requires 120 <= n < 150
    ensures Rough(n) <==> n in {127, 131, 137, 139, 149}
  {
    assert n % 2 == 0 || n % 3 == 0 || n % 5 == 0 || n in {121, 127, 131, 133, 137, 139, 143, 149};
  }

  lemma RoughFrom150(n: nat)
    requires 150 <= n < 180
    ensures Rough(n) <==> n in {151, 157, 163, 167, 173, 179}
  {
    assert n % 2 == 0 || n % 3 == 0 || n % 5 == 0 || n in {151, 157, 161, 163, 167, 169, 173, 179};
  }

  lemma RoughFrom180(n: nat)
    requires 180 <= n < 210
    ensures Rough(n) <==> n in {181, 191, 193, 197, 199}
  {
    assert n % 2 == 0 || n % 3 == 0 || n % 5 == 0 || n in {181, 187, 191, 193, 197, 199, 203, 209};
  }

  lemma RoughFrom210(n: nat)
    requires 210 <= n < 240
    ensures Rough(n) <==> n in {211, 223, 227, 229, 233, 239}
  {
    assert n % 2 == 0 || n % 3 == 0 || n % 5 == 0 || n in {211, 217, 221, 223, 227, 229, 233, 239};
  }

  lemma RoughFrom240(n: nat)
    requires 240 <= n < 270
    ensures Rough(n) <==> n in {241, 251, 257, 263, 269}
  {
    assert n % 2 == 0 || n % 3 == 0 || n % 5 == 0 || n in {241, 247, 251, 253, 257, 259, 263, 269};
  }

  lemma RoughFrom270(n: nat)
    requires 270 <= n < 300
    ensures Rough(n) <==> n in {271, 277, 281, 283, 293}
  {
    assert n % 2 == 0 || n % 3 == 0 || n % 5 == 0 || n in {271, 277, 281, 283, 287, 289, 293, 299};
  }

  lemma RoughFrom300(n: nat)
    requires 300 <= n < 312
    ensures Rough(n) <==> n in {307, 311}
  {
    assert n % 2 == 0 || n % 3 == 0 || n % 5 == 0 || n in {301, 307, 311};
  }

  lemma Members(n: nat)
    ensures n in PRIMES_FROM_2 <==> n in {2, 3, 5, 7, 11, 13, 17, 19, 23, 29, 31, 37, 41, 43, 47, 53}
    ensures n in PRIMES_FROM_59 <==> n in {59, 61, 67, 71, 73, 79, 83, 89, 97, 101, 103, 107, 109, 113, 127, 131}
    ensures n in PRIMES_FROM_137
         <==> n in {137, 139, 149, 151, 157, 163, 167, 173, 179, 181, 191, 193, 197, 199, 211, 223}
    ensures n in PRIMES_FROM_227
         <==> n in {227, 229, 233, 239, 241, 251, 257, 263, 269, 271, 277, 281, 283, 293, 307, 311}
  {
  }

  /** The list holds exactly the primes up to its last. */
  lemma ExactlyThePrimes(n: nat)
    ensures n in FIRST_PRIMES <==> n <= LAST_PRIME && IsPrime(n)
  {
    hide IsPrime, Rough, PRIMES_FROM_2, PRIMES_FROM_59, PRIMES_FROM_137, PRIMES_FROM_227;
    Members(n);
    if n < 19 {
      SmallPrimes(n);
    } else if n <= LAST_PRIME {
      RoughIsPrime(n);
      if n < 30 {
        RoughFrom19(n);
      } else if n < 60 {
        RoughFrom30(n);
      } else if n < 90 {
        RoughFrom60(n);
      } else if n < 120 {
        RoughFrom90(n);
      } else if n < 150 {
        RoughFrom120(n);
      } else if n < 180 {
        RoughFrom150(n);
      } else if n < 210 {
        RoughFrom180(n);
      } else if n < 240 {
        RoughFrom210(n);
      } else if n < 270 {
        RoughFrom240(n);
      } else if n < 300 {
        RoughFrom270(n);
      } else {
        RoughFrom300(n);
      }
    }
  }

  predicate Ascending(s: seq<nat>) {
    forall i, j :: 0 <= i < j < |s| ==> s[i] < s[j]
  }

  lemma {:induction false} AscendsStepwise(s: seq<nat>)
    requires forall i :: 0 <= i < |s| - 1 ==> s[i] < s[i + 1]
    ensures Ascending(s)
  {
    if |s| > 1 {
      var front := s[..|s| - 1];
      assert forall i :: 0 <= i < |front| - 1 ==> front[i] < front[i + 1];
      AscendsStepwise(front);
      forall i | 0 <= i < |s| - 1
        ensures s[i] < s[|s| - 1]
      {
        assert front[i] <= front[|front| - 1];
      }
    }
  }

  lemma RowsAscend()
    ensures Ascending(PRIMES_FROM_2) && Ascending(PRIMES_FROM_59)
    ensures Ascending(PRIMES_FROM_137) && Ascending(PRIMES_FROM_227)
  {
    AscendsStepwise(PRIMES_FROM_2);
    AscendsStepwise(PRIMES_FROM_59);
    AscendsStepwise(PRIMES_FROM_137);
    AscendsStepwise(PRIMES_FROM_227);
  }

  lemma AscendingAppend(a: seq<nat>, b: seq<nat>)
    requires Ascending(a) && Ascending(b) && (a != [] && b != [] ==> a[|a| - 1] < b[0])
    ensures Ascending(a + b)
  {
  }

  /** They are the first sixty-four primes, in order. */
  lemma FirstSixtyFour()
    ensures |FIRST_PRIMES| == 64 && Ascending(FIRST_PRIMES)
    ensures forall n: nat :: n in FIRST_PRIMES <==> n <= LAST_PRIME && IsPrime(n)
  {
    RowsAscend();
    Sizes();
    hide Ascending, IsPrime, PRIMES_FROM_2, PRIMES_FROM_59, PRIMES_FROM_137, PRIMES_FROM_227;
    AscendingAppend(PRIMES_FROM_2, PRIMES_FROM_59);
    AscendingAppend(PRIMES_FROM_2 + PRIMES_FROM_59, PRIMES_FROM_137);
    AscendingAppend(PRIMES_FROM_2 + PRIMES_FROM_59 + PRIMES_FROM_137, PRIMES_FROM_227);
    forall n: nat
      ensures n in FIRST_PRIMES <==> n <= LAST_PRIME && IsPrime(n)
    {
      ExactlyThePrimes(n);
    }
  }

  lemma Sizes()
    ensures |PRIMES_FROM_2| == |PRIMES_FROM_59| == |PRIMES_FROM_137| == |PRIMES_FROM_227| == 16
    ensures PRIMES_FROM_2[15] == 53 && PRIMES_FROM_59[0] == 59 && PRIMES_FROM_59[15] == 131
    ensures PRIMES_FROM_137[0] == 137 && PRIMES_FROM_137[15] == 223 && PRIMES_FROM_227[0] == 227
  {
  }
}
