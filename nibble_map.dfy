/** The fixed nibble permutation of the codec: the `forthMap` and `backMap` lookup tables
    (Colourful_LOR.user.js, lines 12-38) and the guarded lookups that the quantiser wraps
    around them (lines 46 and 50). */
module NibbleMap {

  /** A 4-bit quantity, as the source's `reduceByte` produces it. */
  type Nibble = n: int | 0 <= n < 16

  /** `forthMap`: applied after quantising. */
  const ForthMap: map<int, Nibble> :=
    map[3 := 8, 4 := 3, 5 := 6, 6 := 9, 7 := 13, 8 := 4, 9 := 5, 10 := 7, 11 := 12, 12 := 10, 13 := 11]

  /** `backMap`: applied before dequantising. */
  const BackMap: map<int, Nibble> :=
    map[3 := 4, 4 := 8, 5 := 9, 6 := 5, 7 := 10, 8 := 3, 9 := 6, 10 := 12, 11 := 13, 12 := 11, 13 := 7]

  /** The range the tables cover; the source only looks them up inside it. */
  predicate InTable(k: int) {
    3 <= k <= 13
  }

  /** Both tables are defined on 3..13, take their values in 3..13, move every value there,
      and each undoes the other. */
  lemma TablesInverse(k: int)
    requires InTable(k)
    ensures k in ForthMap && k in BackMap
    ensures InTable(ForthMap[k]) && InTable(BackMap[k])
    ensures BackMap[ForthMap[k]] == k && ForthMap[BackMap[k]] == k
    ensures ForthMap[k] != k && BackMap[k] != k
  {
    if k == 3 {
    } else if k == 4 {
    } else if k == 5 {
    } else if k == 6 {
    } else if k == 7 {
    } else if k == 8 {
    } else if k == 9 {
    } else if k == 10 {
    } else if k == 11 {
    } else if k == 12 {
    } else {
    }
  }

  /** Neither table has a key outside 3..13. */
  lemma TablesDomain(k: int)
    ensures k in ForthMap <==> InTable(k)
    ensures k in BackMap <==> InTable(k)
  {
  }

  /** `byte < 3 || byte > 13 ? byte : forthMap[byte]` */
  function Forth(n: Nibble): Nibble {
    if n < 3 || n > 13 then n else ForthMap[n]
  }

  /** `byte < 3 || byte > 13 ? byte : backMap[byte]` */
  function Back(n: Nibble): Nibble {
    if n < 3 || n > 13 then n else BackMap[n]
  }

  /** The guarded lookups are mutual inverses on every nibble: a bijection on 3..13 and the
      identity elsewhere. */
  lemma ForthBackInverse(n: Nibble)
    ensures Back(Forth(n)) == n
    ensures Forth(Back(n)) == n
  {
    if InTable(n) {
      TablesInverse(n);
    }
  }

  /** Inside the table range the permutation moves every value and stays in range; outside
      it (0, 1, 2, 14, 15) both directions leave the nibble unchanged. */
  lemma FixedPoints(n: Nibble)
    ensures InTable(n) ==> InTable(Forth(n)) && Forth(n) != n && InTable(Back(n)) && Back(n) != n
    ensures !InTable(n) ==> Forth(n) == n && Back(n) == n
  {
    if InTable(n) {
      TablesInverse(n);
    }
  }

  /** Hence the permutation is injective on nibbles. */
  lemma ForthInjective(m: Nibble, n: Nibble)
    ensures Forth(m) == Forth(n) ==> m == n
  {
    ForthBackInverse(m);
    ForthBackInverse(n);
  }
}
