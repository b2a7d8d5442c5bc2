/**
 * The `Algebra` and `GeneratedAlgebra` traits of the algebra crate: a graded
 * algebra over F_p, each degree finite dimensional with an ordered basis.
 *
 * The members every concrete algebra must supply (`prime`, `dimension`,
 * `multiply_basis_elements`, `basis_element_to_string`, `decompose_basis_element`)
 * are the fields of the `Algebra` and `GeneratedAlgebra` values: any table
 * of the right shape is allowed. The default bodies of the trait are modelled
 * on top of them, the products as loops that add into a window of a mutable
 * buffer (a non-aligned `SliceMut`).
 */
module AlgebraTrait {
  import opened Modular
  import opened Strings

  /** A basis element: its signed degree and its index in that degree's basis. */
  datatype BasisElement = BasisElement(degree: int, index: nat)

  /**
   * What a concrete algebra supplies. `product(rd, ri, sd, si)` is the product
   * of basis elements `(rd, ri)` and `(sd, si)` written in the basis of degree
   * `rd + sd`; `basisElementToString(d, i)` names a basis element.
   */
  datatype Algebra = Algebra(
    prime: nat,
    dimension: int -> nat,
    product: (int, nat, int, nat) -> seq<nat>,
    basisElementToString: (int, nat) -> string)
  {
    /** The prime is at least 2 and every product lives in the degree it should. */
    ghost predicate Valid()
    {
      && prime >= 2
      && forall rd, ri, sd, si :: |product(rd, ri, sd, si)| == dimension(rd + sd)
    }
  }

  // The default bodies of `Algebra`

  /** The save-file magic of an algebra that does not override it. */
  function Magic(alg: Algebra): (m: nat)
    ensures m == 0
  {
    0
  }

  /** The filtration-one products of an algebra that does not override them: none. */
  function DefaultFiltrationOneProducts(alg: Algebra): (r: seq<(string, int, nat)>)
    ensures r == []
  {
    []
  }

  /**
   * `multiply_basis_elements`: adds `coeff * r * s` into the window of `result`
   * that starts at `offset`. Concrete algebras supply their own; this body
   * meets the contract every one of them must meet. Only reduced coefficients
   * may be passed in.
   */
  method MultiplyBasisElements(alg: Algebra, result: array<nat>, offset: nat, coeff: nat,
                               rd: int, ri: nat, sd: int, si: nat)
    requires alg.Valid() && coeff < alg.prime
    requires offset + alg.dimension(rd + sd) <= result.Length
    modifies result
    ensures AddedInto(old(result[..]), result[..], offset, Scale(coeff, alg.product(rd, ri, sd, si)), alg.prime)
  {
    var prod := alg.product(rd, ri, sd, si);
    var k := 0;
    while k < |prod|
      invariant 0 <= k <= |prod|
      invariant forall j :: 0 <= j < k ==>
        result[offset + j] == (old(result[offset + j]) + coeff * prod[j]) % alg.prime
      invariant forall j :: 0 <= j < result.Length && !(offset <= j < offset + k) ==> result[j] == old(result[j])
    {
      result[offset + k] := (result[offset + k] + coeff * prod[k]) % alg.prime;
      k := k + 1;
    }
  }

  /**
   * The exact product of the basis element `(rd, ri)` by the first `n` entries
   * of `s`: the sum over `i < n` of `coeff * s[i] * ((rd, ri) * (sd, i))`.
   */
  function BasisTimesElement(alg: Algebra, coeff: int, rd: int, ri: nat, sd: int, s: seq<int>, n: nat): (v: seq<int>)
    requires alg.Valid() && n <= |s|
    ensures |v| == alg.dimension(rd + sd)
  {
    if n == 0 then Zeros(alg.dimension(rd + sd))
    else AddScaled(BasisTimesElement(alg, coeff, rd, ri, sd, s, n - 1), coeff * s[n - 1], alg.product(rd, ri, sd, n - 1))
  }

  /**
   * The exact product of the first `n` entries of `r` by the basis element
   * `(sd, si)`: the sum over `j < n` of `coeff * r[j] * ((rd, j) * (sd, si))`.
   */
  function ElementTimesBasis(alg: Algebra, coeff: int, rd: int, r: seq<int>, sd: int, si: nat, n: nat): (v: seq<int>)
    requires alg.Valid() && n <= |r|
    ensures |v| == alg.dimension(rd + sd)
  {
    if n == 0 then Zeros(alg.dimension(rd + sd))
    else AddScaled(ElementTimesBasis(alg, coeff, rd, r, sd, si, n - 1), coeff * r[n - 1], alg.product(rd, n - 1, sd, si))
  }

  /** The exact product of the whole of `r` by the basis element `(sd, si)`. */
  function Column(alg: Algebra, rd: int, r: seq<int>, sd: int, si: nat): (v: seq<int>)
    requires alg.Valid()
    ensures |v| == alg.dimension(rd + sd)
  {
    ElementTimesBasis(alg, 1, rd, r, sd, si, |r|)
  }

  /**
   * The exact product of `r` by the first `n` entries of `s`: the double sum
   * over `i < n` and `j < |r|` of `coeff * s[i] * r[j] * ((rd, j) * (sd, i))`.
   */
  function ElementTimesElement(alg: Algebra, coeff: int, rd: int, r: seq<int>, sd: int, s: seq<int>, n: nat): (v: seq<int>)
    requires alg.Valid() && n <= |s|
    ensures |v| == alg.dimension(rd + sd)
  {
    if n == 0 then Zeros(alg.dimension(rd + sd))
    else AddScaled(ElementTimesElement(alg, coeff, rd, r, sd, s, n - 1), coeff * s[n - 1], Column(alg, rd, r, sd, n - 1))
  }

  /** A zero operand contributes nothing. */
  lemma {:induction false} BasisTimesZero(alg: Algebra, coeff: int, rd: int, ri: nat, sd: int, s: seq<int>, n: nat)
    requires alg.Valid() && n <= |s|
    requires forall i :: 0 <= i < |s| ==> s[i] == 0
    ensures BasisTimesElement(alg, coeff, rd, ri, sd, s, n) == Zeros(alg.dimension(rd + sd))
  {
    if n > 0 {
      BasisTimesZero(alg, coeff, rd, ri, sd, s, n - 1);
    }
  }

  lemma {:induction false} ElementTimesZeroBasis(alg: Algebra, coeff: int, rd: int, r: seq<int>, sd: int, si: nat, n: nat)
    requires alg.Valid() && n <= |r|
    requires forall j :: 0 <= j < |r| ==> r[j] == 0
    ensures ElementTimesBasis(alg, coeff, rd, r, sd, si, n) == Zeros(alg.dimension(rd + sd))
  {
    if n > 0 {
      ElementTimesZeroBasis(alg, coeff, rd, r, sd, si, n - 1);
    }
  }

  lemma {:induction false} ElementTimesZero(alg: Algebra, coeff: int, rd: int, r: seq<int>, sd: int, s: seq<int>, n: nat)
    requires alg.Valid() && n <= |s|
    requires forall i :: 0 <= i < |s| ==> s[i] == 0
    ensures ElementTimesElement(alg, coeff, rd, r, sd, s, n) == Zeros(alg.dimension(rd + sd))
  {
    if n > 0 {
      ElementTimesZero(alg, coeff, rd, r, sd, s, n - 1);
    }
  }

  /**
   * `multiply_basis_element_by_element`: for every non-zero `s[i]`, adds the
   * product of `(rd, ri)` and `(sd, i)` with coefficient `coeff * s[i] mod p`.
   * Altogether this adds `coeff * r * s` modulo `p` into the window and touches
   * nothing else; a zero `s` leaves `result` as it was.
   */
  method MultiplyBasisElementByElement(alg: Algebra, result: array<nat>, offset: nat, coeff: nat,
                                       rd: int, ri: nat, sd: int, s: seq<nat>)
    requires alg.Valid()
    requires ReducedWindow(result[..], offset, alg.dimension(rd + sd), alg.prime)
    modifies result
    ensures AddedInto(old(result[..]), result[..], offset, BasisTimesElement(alg, coeff, rd, ri, sd, s, |s|), alg.prime)
    ensures (forall i :: 0 <= i < |s| ==> s[i] == 0) ==> result[..] == old(result[..])
  {
    var p := alg.prime;
    ghost var start := result[..];
    AddedZero(start, offset, alg.dimension(rd + sd), p);
    var i := 0;
    while i < |s|
      invariant 0 <= i <= |s|
      invariant AddedInto(start, result[..], offset, BasisTimesElement(alg, coeff, rd, ri, sd, s, i), p)
    {
      ghost var sum := BasisTimesElement(alg, coeff, rd, ri, sd, s, i);
      if s[i] != 0 {
        ghost var before := result[..];
        MultiplyBasisElements(alg, result, offset, (coeff * s[i]) % p, rd, ri, sd, i);
        AddedTwice(start, before, result[..], offset, sum, coeff * s[i], alg.product(rd, ri, sd, i), p);
      } else {
        assert BasisTimesElement(alg, coeff, rd, ri, sd, s, i + 1) == sum;
      }
      i := i + 1;
    }
    if forall i :: 0 <= i < |s| ==> s[i] == 0 {
      BasisTimesZero(alg, coeff, rd, ri, sd, s, |s|);
      AddedZeroUnchanged(start, result[..], offset, BasisTimesElement(alg, coeff, rd, ri, sd, s, |s|), p);
    }
  }

  /**
   * `multiply_element_by_basis_element`, the mirror image: for every non-zero
   * `r[j]`, adds the product of `(rd, j)` and `(sd, si)` with coefficient
   * `coeff * r[j] mod p`.
   */
  method MultiplyElementByBasisElement(alg: Algebra, result: array<nat>, offset: nat, coeff: nat,
                                       rd: int, r: seq<nat>, sd: int, si: nat)
    requires alg.Valid()
    requires ReducedWindow(result[..], offset, alg.dimension(rd + sd), alg.prime)
    modifies result
    ensures AddedInto(old(result[..]), result[..], offset, ElementTimesBasis(alg, coeff, rd, r, sd, si, |r|), alg.prime)
    ensures (forall j :: 0 <= j < |r| ==> r[j] == 0) ==> result[..] == old(result[..])
  {
    var p := alg.prime;
    ghost var start := result[..];
    AddedZero(start, offset, alg.dimension(rd + sd), p);
    var j := 0;
    while j < |r|
      invariant 0 <= j <= |r|
      invariant AddedInto(start, result[..], offset, ElementTimesBasis(alg, coeff, rd, r, sd, si, j), p)
    {
      ghost var sum := ElementTimesBasis(alg, coeff, rd, r, sd, si, j);
      if r[j] != 0 {
        ghost var before := result[..];
        MultiplyBasisElements(alg, result, offset, (coeff * r[j]) % p, rd, j, sd, si);
        AddedTwice(start, before, result[..], offset, sum, coeff * r[j], alg.product(rd, j, sd, si), p);
      } else {
        assert ElementTimesBasis(alg, coeff, rd, r, sd, si, j + 1) == sum;
      }
      j := j + 1;
    }
    if forall j :: 0 <= j < |r| ==> r[j] == 0 {
      ElementTimesZeroBasis(alg, coeff, rd, r, sd, si, |r|);
      AddedZeroUnchanged(start, result[..], offset, ElementTimesBasis(alg, coeff, rd, r, sd, si, |r|), p);
    }
  }

  /** The coefficient of a product by a basis element factors out. */
  lemma {:induction false} ElementTimesBasisScales(alg: Algebra, c: int, rd: int, r: seq<int>, sd: int, si: nat, n: nat)
    requires alg.Valid() && n <= |r|
    ensures ElementTimesBasis(alg, c, rd, r, sd, si, n) == Scale(c, ElementTimesBasis(alg, 1, rd, r, sd, si, n))
  {
    if n > 0 {
      ElementTimesBasisScales(alg, c, rd, r, sd, si, n - 1);
      AddScaledFactor(c, ElementTimesBasis(alg, 1, rd, r, sd, si, n - 1), r[n - 1], alg.product(rd, n - 1, sd, si),
                      ElementTimesBasis(alg, c, rd, r, sd, si, n - 1),
                      ElementTimesBasis(alg, c, rd, r, sd, si, n), ElementTimesBasis(alg, 1, rd, r, sd, si, n));
    } else {
      ScaleZeros(c, alg.dimension(rd + sd));
    }
  }

  /**
   * `multiply_element_by_element`: for every non-zero `s[i]`, adds `r` times the
   * basis element `(sd, i)` with coefficient `coeff * s[i] mod p`. Altogether
   * this adds `coeff * r * s` modulo `p`, the double sum over `i` and `j` of
   * `coeff * s[i] * r[j] * ((rd, j) * (sd, i))`.
   */
  method MultiplyElementByElement(alg: Algebra, result: array<nat>, offset: nat, coeff: nat,
                                  rd: int, r: seq<nat>, sd: int, s: seq<nat>)
    requires alg.Valid()
    requires ReducedWindow(result[..], offset, alg.dimension(rd + sd), alg.prime)
    modifies result
    ensures AddedInto(old(result[..]), result[..], offset, ElementTimesElement(alg, coeff, rd, r, sd, s, |s|), alg.prime)
    ensures (forall i :: 0 <= i < |s| ==> s[i] == 0) ==> result[..] == old(result[..])
  {
    var p := alg.prime;
    ghost var start := result[..];
    AddedZero(start, offset, alg.dimension(rd + sd), p);
    var i := 0;
    while i < |s|
      invariant 0 <= i <= |s|
      invariant AddedInto(start, result[..], offset, ElementTimesElement(alg, coeff, rd, r, sd, s, i), p)
    {
      ghost var sum := ElementTimesElement(alg, coeff, rd, r, sd, s, i);
      if s[i] != 0 {
        ghost var before := result[..];
        AddedIsReduced(start, before, offset, sum, p);
        MultiplyElementByBasisElement(alg, result, offset, (coeff * s[i]) % p, rd, r, sd, i);
        ColumnAdded(alg, coeff, rd, r, sd, s, i, start, before, result[..], offset);
      } else {
        ColumnSkipped(alg, coeff, rd, r, sd, s, i);
      }
      i := i + 1;
    }
    if forall i :: 0 <= i < |s| ==> s[i] == 0 {
      ElementTimesZero(alg, coeff, rd, r, sd, s, |s|);
      AddedZeroUnchanged(start, result[..], offset, ElementTimesElement(alg, coeff, rd, r, sd, s, |s|), p);
    }
  }

  /** Adding the column of `s[i]`, with its coefficient reduced, adds the next term of the double sum. */
  lemma ColumnAdded(alg: Algebra, coeff: int, rd: int, r: seq<int>, sd: int, s: seq<int>, i: nat,
                    start: seq<int>, before: seq<int>, after: seq<int>, offset: nat)
    requires alg.Valid() && i < |s|
    requires AddedInto(start, before, offset, ElementTimesElement(alg, coeff, rd, r, sd, s, i), alg.prime)
    requires AddedInto(before, after, offset, ElementTimesBasis(alg, (coeff * s[i]) % alg.prime, rd, r, sd, i, |r|), alg.prime)
    ensures AddedInto(start, after, offset, ElementTimesElement(alg, coeff, rd, r, sd, s, i + 1), alg.prime)
  {
    var p := alg.prime;
    ElementTimesBasisScales(alg, (coeff * s[i]) % p, rd, r, sd, i, |r|);
    ElementTimesElementUnfold(alg, coeff, rd, r, sd, s, i + 1);
    AddedTwice(start, before, after, offset, ElementTimesElement(alg, coeff, rd, r, sd, s, i), coeff * s[i], Column(alg, rd, r, sd, i), p);
  }

  /** A zero entry of `s` adds nothing to the double sum. */
  lemma ColumnSkipped(alg: Algebra, coeff: int, rd: int, r: seq<int>, sd: int, s: seq<int>, i: nat)
    requires alg.Valid() && i < |s| && s[i] == 0
    ensures ElementTimesElement(alg, coeff, rd, r, sd, s, i + 1) == ElementTimesElement(alg, coeff, rd, r, sd, s, i)
  {
    ElementTimesElementUnfold(alg, coeff, rd, r, sd, s, i + 1);
    assert coeff * s[i] == 0;
    AddScaledByZero(ElementTimesElement(alg, coeff, rd, r, sd, s, i), Column(alg, rd, r, sd, i));
  }

  // Bilinearity of the exact products

  /** The product of an element by a basis element is linear in the element. */
  lemma {:induction false} ElementTimesBasisLinear(alg: Algebra, rd: int, r1: seq<int>, r2: seq<int>, a: int, b: int,
                                                   sd: int, si: nat, n: nat)
    requires alg.Valid() && |r1| == |r2| && n <= |r1|
    ensures ElementTimesBasis(alg, 1, rd, Combine(a, r1, b, r2), sd, si, n)
         == Combine(a, ElementTimesBasis(alg, 1, rd, r1, sd, si, n), b, ElementTimesBasis(alg, 1, rd, r2, sd, si, n))
  {
    if n > 0 {
      var r := Combine(a, r1, b, r2);
      ElementTimesBasisLinear(alg, rd, r1, r2, a, b, sd, si, n - 1);
      AddScaledCombinedCoefficient(ElementTimesBasis(alg, 1, rd, r, sd, si, n - 1),
                                   ElementTimesBasis(alg, 1, rd, r1, sd, si, n - 1),
                                   ElementTimesBasis(alg, 1, rd, r2, sd, si, n - 1),
                                   alg.product(rd, n - 1, sd, si),
                                   a, b, 1, r[n - 1], r1[n - 1], r2[n - 1],
                                   ElementTimesBasis(alg, 1, rd, r, sd, si, n),
                                   ElementTimesBasis(alg, 1, rd, r1, sd, si, n),
                                   ElementTimesBasis(alg, 1, rd, r2, sd, si, n));
    } else {
      CombineZeros(a, b, alg.dimension(rd + sd));
    }
  }

  /** So is the product of a whole element by a basis element. */
  lemma ColumnLinear(alg: Algebra, rd: int, r1: seq<int>, r2: seq<int>, a: int, b: int, sd: int, si: nat)
    requires alg.Valid() && |r1| == |r2|
    ensures Column(alg, rd, Combine(a, r1, b, r2), sd, si) == Combine(a, Column(alg, rd, r1, sd, si), b, Column(alg, rd, r2, sd, si))
  {
    ElementTimesBasisLinear(alg, rd, r1, r2, a, b, sd, si, |r1|);
  }

  /** One more entry of the right factor adds one more column. */
  lemma ElementTimesElementUnfold(alg: Algebra, coeff: int, rd: int, r: seq<int>, sd: int, s: seq<int>, n: nat)
    requires alg.Valid() && 0 < n <= |s|
    ensures ElementTimesElement(alg, coeff, rd, r, sd, s, n)
         == AddScaled(ElementTimesElement(alg, coeff, rd, r, sd, s, n - 1), coeff * s[n - 1], Column(alg, rd, r, sd, n - 1))
  {
  }

  /** The product of two elements is linear in the left factor. */
  lemma {:induction false} ElementTimesElementLinearLeft(alg: Algebra, coeff: int, rd: int, r1: seq<int>, r2: seq<int>,
                                                         a: int, b: int, sd: int, s: seq<int>, n: nat)
    requires alg.Valid() && |r1| == |r2| && n <= |s|
    ensures ElementTimesElement(alg, coeff, rd, Combine(a, r1, b, r2), sd, s, n)
         == Combine(a, ElementTimesElement(alg, coeff, rd, r1, sd, s, n), b, ElementTimesElement(alg, coeff, rd, r2, sd, s, n))
  {
    if n > 0 {
      var r := Combine(a, r1, b, r2);
      ElementTimesElementLinearLeft(alg, coeff, rd, r1, r2, a, b, sd, s, n - 1);
      ColumnLinear(alg, rd, r1, r2, a, b, sd, n - 1);
      ElementTimesElementUnfold(alg, coeff, rd, r, sd, s, n);
      ElementTimesElementUnfold(alg, coeff, rd, r1, sd, s, n);
      ElementTimesElementUnfold(alg, coeff, rd, r2, sd, s, n);
      AddScaledCombined(ElementTimesElement(alg, coeff, rd, r, sd, s, n - 1),
                        ElementTimesElement(alg, coeff, rd, r1, sd, s, n - 1),
                        ElementTimesElement(alg, coeff, rd, r2, sd, s, n - 1),
                        Column(alg, rd, r, sd, n - 1), Column(alg, rd, r1, sd, n - 1), Column(alg, rd, r2, sd, n - 1),
                        a, b, coeff * s[n - 1],
                        ElementTimesElement(alg, coeff, rd, r, sd, s, n),
                        ElementTimesElement(alg, coeff, rd, r1, sd, s, n),
                        ElementTimesElement(alg, coeff, rd, r2, sd, s, n));
    } else {
      CombineZeros(a, b, alg.dimension(rd + sd));
    }
  }

  /** The product of two elements is linear in the right factor. */
  lemma {:induction false} ElementTimesElementLinearRight(alg: Algebra, coeff: int, rd: int, r: seq<int>, sd: int,
                                                          s1: seq<int>, s2: seq<int>, a: int, b: int, n: nat)
    requires alg.Valid() && |s1| == |s2| && n <= |s1|
    ensures ElementTimesElement(alg, coeff, rd, r, sd, Combine(a, s1, b, s2), n)
         == Combine(a, ElementTimesElement(alg, coeff, rd, r, sd, s1, n), b, ElementTimesElement(alg, coeff, rd, r, sd, s2, n))
  {
    if n > 0 {
      var s := Combine(a, s1, b, s2);
      ElementTimesElementLinearRight(alg, coeff, rd, r, sd, s1, s2, a, b, n - 1);
      ElementTimesElementUnfold(alg, coeff, rd, r, sd, s, n);
      ElementTimesElementUnfold(alg, coeff, rd, r, sd, s1, n);
      ElementTimesElementUnfold(alg, coeff, rd, r, sd, s2, n);
      AddScaledCombinedCoefficient(ElementTimesElement(alg, coeff, rd, r, sd, s, n - 1),
                                   ElementTimesElement(alg, coeff, rd, r, sd, s1, n - 1),
                                   ElementTimesElement(alg, coeff, rd, r, sd, s2, n - 1),
                                   Column(alg, rd, r, sd, n - 1),
                                   a, b, coeff, s[n - 1], s1[n - 1], s2[n - 1],
                                   ElementTimesElement(alg, coeff, rd, r, sd, s, n),
                                   ElementTimesElement(alg, coeff, rd, r, sd, s1, n),
                                   ElementTimesElement(alg, coeff, rd, r, sd, s2, n));
    } else {
      CombineZeros(a, b, alg.dimension(rd + sd));
    }
  }

  // Working modulo p

  lemma {:induction false} ElementTimesBasisCongruent(alg: Algebra, rd: int, r: seq<int>, r': seq<int>, sd: int, si: nat, n: nat)
    requires alg.Valid() && Congruent(r, r', alg.prime) && n <= |r|
    ensures Congruent(ElementTimesBasis(alg, 1, rd, r, sd, si, n), ElementTimesBasis(alg, 1, rd, r', sd, si, n), alg.prime)
  {
    var p := alg.prime;
    if n == 0 {
      CongruentReflexive(Zeros(alg.dimension(rd + sd)), p);
    } else {
      ElementTimesBasisCongruent(alg, rd, r, r', sd, si, n - 1);
      var prod := alg.product(rd, n - 1, sd, si);
      CongruentReflexive(prod, p);
      ModMulCongruent(r[n - 1], r'[n - 1], 1, p);
      CongruentAddScaled(ElementTimesBasis(alg, 1, rd, r, sd, si, n - 1), ElementTimesBasis(alg, 1, rd, r', sd, si, n - 1),
                         1 * r[n - 1], 1 * r'[n - 1], prod, prod, p);
    }
  }

  /** Replacing either factor by a congruent one gives a congruent product. */
  lemma {:induction false} ElementTimesElementCongruent(alg: Algebra, coeff: int, rd: int, r: seq<int>, r': seq<int>,
                                                        sd: int, s: seq<int>, s': seq<int>, n: nat)
    requires alg.Valid() && Congruent(r, r', alg.prime) && Congruent(s, s', alg.prime) && n <= |s|
    ensures Congruent(ElementTimesElement(alg, coeff, rd, r, sd, s, n), ElementTimesElement(alg, coeff, rd, r', sd, s', n), alg.prime)
  {
    var p := alg.prime;
    if n == 0 {
      CongruentReflexive(Zeros(alg.dimension(rd + sd)), p);
    } else {
      ElementTimesElementCongruent(alg, coeff, rd, r, r', sd, s, s', n - 1);
      ElementTimesBasisCongruent(alg, rd, r, r', sd, n - 1, |r|);
      ModMulCongruent(s[n - 1], s'[n - 1], coeff, p);
      CongruentAddScaled(ElementTimesElement(alg, coeff, rd, r, sd, s, n - 1), ElementTimesElement(alg, coeff, rd, r', sd, s', n - 1),
                         coeff * s[n - 1], coeff * s'[n - 1],
                         Column(alg, rd, r, sd, n - 1), Column(alg, rd, r', sd, n - 1), p);
    }
  }

  /**
   * Bilinearity over F_p: the product of the reduced combination
   * `a * r1 + b * r2` by `s` is congruent to `a * (r1 * s) + b * (r2 * s)`,
   * and likewise in the right factor.
   */
  lemma BilinearModP(alg: Algebra, coeff: int, rd: int, r1: seq<int>, r2: seq<int>, a: int, b: int, sd: int, s: seq<int>)
    requires alg.Valid() && |r1| == |r2|
    ensures Congruent(
      ElementTimesElement(alg, coeff, rd, Reduce(Combine(a, r1, b, r2), alg.prime), sd, s, |s|),
      Combine(a, ElementTimesElement(alg, coeff, rd, r1, sd, s, |s|), b, ElementTimesElement(alg, coeff, rd, r2, sd, s, |s|)),
      alg.prime)
    ensures Congruent(
      ElementTimesElement(alg, coeff, sd, s, rd, Reduce(Combine(a, r1, b, r2), alg.prime), |r1|),
      Combine(a, ElementTimesElement(alg, coeff, sd, s, rd, r1, |r1|), b, ElementTimesElement(alg, coeff, sd, s, rd, r2, |r2|)),
      alg.prime)
  {
    var p := alg.prime;
    var r := Combine(a, r1, b, r2);
    ReduceCongruent(r, p);
    CongruentReflexive(s, p);
    ElementTimesElementCongruent(alg, coeff, rd, Reduce(r, p), r, sd, s, s, |s|);
    ElementTimesElementLinearLeft(alg, coeff, rd, r1, r2, a, b, sd, s, |s|);
    ElementTimesElementCongruent(alg, coeff, sd, s, s, rd, Reduce(r, p), r, |r1|);
    ElementTimesElementLinearRight(alg, coeff, sd, s, rd, r1, r2, a, b, |r1|);
  }

  // The three products agree

  /** Multiplying a unit vector by a basis element picks out one product of basis elements. */
  lemma {:induction false} UnitTimesBasis(alg: Algebra, rd: int, ri: nat, sd: int, si: nat, n: nat)
    requires alg.Valid() && ri < alg.dimension(rd) && n <= alg.dimension(rd)
    ensures ElementTimesBasis(alg, 1, rd, Unit(alg.dimension(rd), ri), sd, si, n)
         == if ri < n then alg.product(rd, ri, sd, si) else Zeros(alg.dimension(rd + sd))
  {
    if n > 0 {
      UnitTimesBasis(alg, rd, ri, sd, si, n - 1);
      var u := Unit(alg.dimension(rd), ri);
      var prod := alg.product(rd, n - 1, sd, si);
      var prev := ElementTimesBasis(alg, 1, rd, u, sd, si, n - 1);
      if n - 1 == ri {
        assert 1 * u[n - 1] == 1 && prev == Zeros(|prod|);
        AddScaledToZeros(1, prod);
        ScaleOne(prod);
      } else {
        assert 1 * u[n - 1] == 0;
        AddScaledByZero(prev, prod);
      }
    }
  }

  /**
   * A basis element is the unit vector at its index, and the basis-by-element
   * product is the element-by-element product of that unit vector.
   */
  lemma {:induction false} BasisTimesElementIsUnitProduct(alg: Algebra, coeff: int, rd: int, ri: nat, sd: int, s: seq<int>, n: nat)
    requires alg.Valid() && ri < alg.dimension(rd) && n <= |s|
    ensures BasisTimesElement(alg, coeff, rd, ri, sd, s, n)
         == ElementTimesElement(alg, coeff, rd, Unit(alg.dimension(rd), ri), sd, s, n)
  {
    if n > 0 {
      BasisTimesElementIsUnitProduct(alg, coeff, rd, ri, sd, s, n - 1);
      UnitTimesBasis(alg, rd, ri, sd, n - 1, alg.dimension(rd));
    }
  }

  /** Likewise the element-by-basis product is the product with the unit vector on the right. */
  lemma {:induction false} ElementTimesBasisIsUnitProduct(alg: Algebra, coeff: int, rd: int, r: seq<int>, sd: int, si: nat)
    requires alg.Valid() && si < alg.dimension(sd)
    ensures ElementTimesBasis(alg, coeff, rd, r, sd, si, |r|)
         == ElementTimesElement(alg, coeff, rd, r, sd, Unit(alg.dimension(sd), si), alg.dimension(sd))
  {
    var u := Unit(alg.dimension(sd), si);
    ElementTimesBasisScales(alg, coeff, rd, r, sd, si, |r|);
    UnitColumn(alg, coeff, rd, r, sd, si, alg.dimension(sd));
  }

  /** Multiplying by the unit vector at `si` on the right keeps only column `si`. */
  lemma UnitColumn(alg: Algebra, coeff: int, rd: int, r: seq<int>, sd: int, si: nat, n: nat)
    requires alg.Valid() && si < alg.dimension(sd) && n <= alg.dimension(sd)
    ensures ElementTimesElement(alg, coeff, rd, r, sd, Unit(alg.dimension(sd), si), n)
         == if si < n then Scale(coeff, Column(alg, rd, r, sd, si)) else Zeros(alg.dimension(rd + sd))
  {
    if si < n {
      UnitColumnAfter(alg, coeff, rd, r, sd, si, n);
    } else {
      UnitColumnBefore(alg, coeff, rd, r, sd, si, n);
    }
  }

  /** Before column `si` every coefficient of the unit vector is zero. */
  lemma {:induction false} UnitColumnBefore(alg: Algebra, coeff: int, rd: int, r: seq<int>, sd: int, si: nat, n: nat)
    requires alg.Valid() && si < alg.dimension(sd) && n <= si
    ensures ElementTimesElement(alg, coeff, rd, r, sd, Unit(alg.dimension(sd), si), n) == Zeros(alg.dimension(rd + sd))
  {
    if n > 0 {
      var u := Unit(alg.dimension(sd), si);
      UnitColumnBefore(alg, coeff, rd, r, sd, si, n - 1);
      ElementTimesElementUnfold(alg, coeff, rd, r, sd, u, n);
      assert coeff * u[n - 1] == 0;
      AddScaledByZero(ElementTimesElement(alg, coeff, rd, r, sd, u, n - 1), Column(alg, rd, r, sd, n - 1));
    }
  }

  /** From column `si` on, the sum is that column, scaled. */
  lemma {:induction false} UnitColumnAfter(alg: Algebra, coeff: int, rd: int, r: seq<int>, sd: int, si: nat, n: nat)
    requires alg.Valid() && si < n <= alg.dimension(sd)
    ensures ElementTimesElement(alg, coeff, rd, r, sd, Unit(alg.dimension(sd), si), n) == Scale(coeff, Column(alg, rd, r, sd, si))
  {
    var u := Unit(alg.dimension(sd), si);
    var prev := ElementTimesElement(alg, coeff, rd, r, sd, u, n - 1);
    ElementTimesElementUnfold(alg, coeff, rd, r, sd, u, n);
    if n - 1 == si {
      UnitColumnBefore(alg, coeff, rd, r, sd, si, n - 1);
      assert coeff * u[n - 1] == coeff;
      AddScaledToZeros(coeff, Column(alg, rd, r, sd, si));
    } else {
      UnitColumnAfter(alg, coeff, rd, r, sd, si, n - 1);
      assert coeff * u[n - 1] == 0;
      AddScaledByZero(prev, Column(alg, rd, r, sd, n - 1));
    }
  }

  // Rendering an element

  /** The indices below `n` of the non-zero entries of `e`, in increasing order. */
  function NonzeroIndices(e: seq<nat>, n: nat): (idx: seq<nat>)
    requires n <= |e|
    ensures forall k :: 0 <= k < |idx| ==> idx[k] < n && e[idx[k]] != 0
    ensures forall k, l :: 0 <= k < l < |idx| ==> idx[k] < idx[l]
  {
    if n == 0 then []
    else NonzeroIndices(e, n - 1) + if e[n - 1] != 0 then [n - 1] else []
  }

  /** No non-zero entry is skipped. */
  lemma {:induction false} NonzeroIndicesComplete(e: seq<nat>, n: nat, i: nat)
    requires i < n <= |e| && e[i] != 0
    ensures i in NonzeroIndices(e, n)
  {
    if i < n - 1 {
      NonzeroIndicesComplete(e, n - 1, i);
    }
  }

  /** One term of a rendered element: `v * b`, or just `b` when the coefficient is 1. */
  function Term(v: nat, name: string): (t: string)
    ensures v == 1 ==> t == name
    ensures v != 1 ==> t == NatToString(v) + " * " + name
  {
    (if v != 1 then NatToString(v) + " * " else "") + name
  }

  /** The terms of the entries below `n`: one per non-zero entry, in index order. */
  function Terms(alg: Algebra, degree: int, e: seq<nat>, n: nat): seq<string>
    requires n <= |e|
  {
    if n == 0 then []
    else Terms(alg, degree, e, n - 1)
         + if e[n - 1] != 0 then [Term(e[n - 1], alg.basisElementToString(degree, n - 1))] else []
  }

  /** The `k`-th term renders the `k`-th non-zero entry. */
  lemma {:induction false} TermsInIndexOrder(alg: Algebra, degree: int, e: seq<nat>, n: nat)
    requires n <= |e|
    ensures |Terms(alg, degree, e, n)| == |NonzeroIndices(e, n)|
    ensures forall k :: 0 <= k < |NonzeroIndices(e, n)| ==>
      var i := NonzeroIndices(e, n)[k]; Terms(alg, degree, e, n)[k] == Term(e[i], alg.basisElementToString(degree, i))
  {
    if n > 0 {
      TermsInIndexOrder(alg, degree, e, n - 1);
      var ts, ts' := Terms(alg, degree, e, n), Terms(alg, degree, e, n - 1);
      var idx, idx' := NonzeroIndices(e, n), NonzeroIndices(e, n - 1);
      if e[n - 1] != 0 {
        assert ts == ts' + [Term(e[n - 1], alg.basisElementToString(degree, n - 1))];
        assert idx == idx' + [n - 1];
        forall k | 0 <= k < |idx| ensures ts[k] == Term(e[idx[k]], alg.basisElementToString(degree, idx[k])) {
          if k < |idx'| {
            assert ts[k] == ts'[k] && idx[k] == idx'[k];
          }
        }
      } else {
        assert ts == ts' && idx == idx';
      }
    }
  }

  lemma TermsStep(alg: Algebra, degree: int, e: seq<nat>, n: nat)
    requires n < |e|
    ensures e[n] == 0 ==> Terms(alg, degree, e, n + 1) == Terms(alg, degree, e, n)
    ensures e[n] != 0 ==> Terminated(Terms(alg, degree, e, n + 1), " + ")
                          == Terminated(Terms(alg, degree, e, n), " + ") + Term(e[n], alg.basisElementToString(degree, n)) + " + "
    ensures e[n] != 0 ==> Terms(alg, degree, e, n + 1) != []
  {
    if e[n] != 0 {
      var ts := Terms(alg, degree, e, n);
      var ts' := Terms(alg, degree, e, n + 1);
      assert ts' == ts + [Term(e[n], alg.basisElementToString(degree, n))];
      assert ts'[..|ts'| - 1] == ts;
    }
  }

  /** What `element_to_string` promises: the terms joined by " + ", or "0" when there are none. */
  function ElementString(alg: Algebra, degree: int, e: seq<nat>): string
  {
    var ts := Terms(alg, degree, e, |e|);
    if ts == [] then "0" else Join(ts, " + ")
  }

  /**
   * `element_to_string`: pushes `v * ` (when `v != 1`), the basis element's name
   * and ` + ` for every non-zero entry, then either pushes `0` (no entry was
   * non-zero) or pops the trailing ` + `.
   */
  method ElementToString(alg: Algebra, degree: int, element: seq<nat>) returns (result: string)
    ensures result == ElementString(alg, degree, element)
  {
    result := "";
    var zero := true;
    var i := 0;
    while i < |element|
      invariant 0 <= i <= |element|
      invariant zero <==> Terms(alg, degree, element, i) == []
      invariant result == Terminated(Terms(alg, degree, element, i), " + ")
    {
      var value := element[i];
      ghost var ts := Terms(alg, degree, element, i);
      ghost var before := result;
      if value != 0 {
        zero := false;
        if value != 1 {
          result := result + NatToString(value) + " * ";
        }
        var b := alg.basisElementToString(degree, i);
        result := result + b + " + ";
        assert result == before + Term(value, b) + " + ";
        TermsStep(alg, degree, element, i);
      } else {
        TermsStep(alg, degree, element, i);
      }
      i := i + 1;
    }
    DropTrailingSeparator(Terms(alg, degree, element, |element|), result);
    if zero {
      result := result + "0";
    } else {
      result := result[..|result| - 3];
    }
  }

  /** A terminated list is empty when there are no items, and otherwise loses its last " + " to three pops. */
  lemma DropTrailingSeparator(ts: seq<string>, text: string)
    requires text == Terminated(ts, " + ")
    ensures ts == [] ==> text == ""
    ensures ts != [] ==> |text| >= 3 && text[..|text| - 3] == Join(ts, " + ")
  {
    if ts != [] {
      TerminatedIsJoinThenSep(ts, " + ");
    }
  }

  /**
   * The rendering is "0" exactly when every entry is zero, provided no basis
   * element of that degree is itself named "0".
   */
  lemma ElementStringZero(alg: Algebra, degree: int, e: seq<nat>)
    ensures (forall i :: 0 <= i < |e| ==> e[i] == 0) ==> ElementString(alg, degree, e) == "0"
    ensures (forall i :: 0 <= i < |e| ==> alg.basisElementToString(degree, i) != "0")
            ==> (ElementString(alg, degree, e) == "0" <==> forall i :: 0 <= i < |e| ==> e[i] == 0)
  {
    var ts := Terms(alg, degree, e, |e|);
    TermsEmpty(alg, degree, e, |e|);
    if ts != [] {
      if |ts| > 1 {
        JoinFront(ts, " + ");
        assert |Join(ts, " + ")| >= 3;
      } else {
        TermsInIndexOrder(alg, degree, e, |e|);
        var j := NonzeroIndices(e, |e|)[0];
        assert ts[0] == Term(e[j], alg.basisElementToString(degree, j));
        if e[j] != 1 {
          assert |ts[0]| >= 4;
        }
      }
    }
  }

  /** There are no terms exactly when every entry is zero. */
  lemma {:induction false} TermsEmpty(alg: Algebra, degree: int, e: seq<nat>, n: nat)
    requires n <= |e|
    ensures Terms(alg, degree, e, n) == [] <==> forall i :: 0 <= i < n ==> e[i] == 0
  {
    if n > 0 {
      TermsEmpty(alg, degree, e, n - 1);
    }
  }

  /** The rendering of a non-zero element lists its terms, separated by " + ". */
  lemma ElementStringTerms(alg: Algebra, degree: int, e: seq<nat>, i: nat)
    requires i < |e| && e[i] != 0
    ensures ElementString(alg, degree, e) == Join(Terms(alg, degree, e, |e|), " + ")
    ensures |Terms(alg, degree, e, |e|)| >= 1
  {
    TermsEmpty(alg, degree, e, |e|);
  }

  // `GeneratedAlgebra`

  /** A term `coeff * left * right` of a decomposition. */
  datatype Factor = Factor(coeff: nat, left: BasisElement, right: BasisElement)

  /** The exact sum of `coeff * left * right` over a list of factors whose degrees add up to `d`. */
  function FactorSum(alg: Algebra, d: int, fs: seq<Factor>): (v: seq<int>)
    requires alg.Valid()
    requires forall k :: 0 <= k < |fs| ==> fs[k].left.degree + fs[k].right.degree == d
    ensures |v| == alg.dimension(d)
  {
    if fs == [] then Zeros(alg.dimension(d))
    else
      var f := fs[|fs| - 1];
      AddScaled(FactorSum(alg, d, fs[..|fs| - 1]), f.coeff,
                alg.product(f.left.degree, f.left.index, f.right.degree, f.right.index))
  }

  /**
   * An algebra with a distinguished presentation: `generators(d)` lists the
   * indices of the generators in degree `d`, and `decompose(d, i)` writes a
   * basis element `(d, i)` that is not a generator, in positive degree, as a
   * sum of products of basis elements of strictly smaller degree. A generator
   * and the unit in degree 0 have no such decomposition.
   */
  datatype GeneratedAlgebra = GeneratedAlgebra(
    algebra: Algebra,
    generators: int -> seq<nat>,
    decompose: (int, nat) -> seq<Factor>)
  {
    /** The basis elements a decomposition is promised for. */
    predicate Decomposable(d: int, i: nat)
    {
      d > 0 && i < algebra.dimension(d) && i !in generators(d)
    }

    ghost predicate Valid()
    {
      && algebra.Valid()
      && (forall d: int, i: nat, k :: Decomposable(d, i) && 0 <= k < |decompose(d, i)| ==>
            && decompose(d, i)[k].left.degree < d
            && decompose(d, i)[k].right.degree < d
            && decompose(d, i)[k].left.degree + decompose(d, i)[k].right.degree == d)
      && (forall d: int, i: nat :: Decomposable(d, i) ==>
            Congruent(FactorSum(algebra, d, decompose(d, i)), Unit(algebra.dimension(d), i), algebra.prime))
    }
  }

  /**
   * `decompose_basis_element`: for a basis element of positive degree that is
   * not a generator, the triples `(c, A, B)` with `A` and `B` of degree
   * strictly below `d` and `(d, i) = sum of c * A * B` over F_p.
   */
  function DecomposeBasisElement(g: GeneratedAlgebra, d: int, i: nat): (fs: seq<Factor>)
    requires g.Valid()
    ensures g.Decomposable(d, i) ==>
      && (forall k :: 0 <= k < |fs| ==> fs[k].left.degree < d && fs[k].right.degree < d)
      && (forall k :: 0 <= k < |fs| ==> fs[k].left.degree + fs[k].right.degree == d)
      && Congruent(FactorSum(g.algebra, d, fs), Unit(g.algebra.dimension(d), i), g.algebra.prime)
  {
    g.decompose(d, i)
  }

  /**
   * The presentation laws are met by a real algebra: the polynomial algebra
   * F_2[x] with `x` in degree 1, one basis element `x^d` in every degree
   * `d >= 0`, generated by `x`, with `x^d = x * x^(d - 1)`. Its unit in degree 0
   * and its generator in degree 1 are not decomposed.
   */
  lemma PolynomialAlgebraValid()
    ensures var g := PolynomialAlgebra();
      && g.Valid()
      && g.algebra.dimension(0) == 1 && g.algebra.dimension(1) == 1
      && forall d :: d >= 2 ==> g.Decomposable(d, 0)
  {
    var g := PolynomialAlgebra();
    var alg := g.algebra;
    forall rd, ri, sd, si ensures |alg.product(rd, ri, sd, si)| == alg.dimension(rd + sd) {
    }
    assert alg.Valid();
    forall d: int, i: nat, k | g.Decomposable(d, i) && 0 <= k < |g.decompose(d, i)|
      ensures g.decompose(d, i)[k].left.degree < d && g.decompose(d, i)[k].right.degree < d
      ensures g.decompose(d, i)[k].left.degree + g.decompose(d, i)[k].right.degree == d
    {
    }
    forall d: int, i: nat | g.Decomposable(d, i)
      ensures Congruent(FactorSum(alg, d, g.decompose(d, i)), Unit(alg.dimension(d), i), alg.prime)
    {
      PolynomialDecomposition(d, i);
    }
  }

  lemma PolynomialDecomposition(d: int, i: nat)
    requires PolynomialAlgebra().Decomposable(d, i)
    ensures var g := PolynomialAlgebra();
      Congruent(FactorSum(g.algebra, d, g.decompose(d, i)), Unit(g.algebra.dimension(d), i), g.algebra.prime)
  {
    var g := PolynomialAlgebra();
    var alg := g.algebra;
    var fs := g.decompose(d, i);
    assert fs[..0] == [];
    assert FactorSum(alg, d, fs) == AddScaled(Zeros(1), 1, [1]);
    assert FactorSum(alg, d, fs) == Unit(1, 0);
    CongruentReflexive(Unit(1, 0), 2);
  }

  function PolynomialAlgebra(): GeneratedAlgebra
  {
    GeneratedAlgebra(
      Algebra(
        2,
        d => if d >= 0 then 1 else 0,
        (rd, ri, sd, si) => if rd + sd >= 0 then [1] else [],
        (d, i) => "x^" + IntToString(d)),
      d => if d == 1 then [0] else [],
      (d, i) => [Factor(1, BasisElement(1, 0), BasisElement(d - 1, 0))])
  }

  /** `generator_to_string` by default names a generator as the basis element it is. */
  function GeneratorToString(g: GeneratedAlgebra, degree: int, idx: nat): (s: string)
    ensures s == g.algebra.basisElementToString(degree, idx)
  {
    g.algebra.basisElementToString(degree, idx)
  }
}
