/** The discriminants the binding generator gives to the variants of a Rust enum. */
module Discriminants {

  /**
   One piece of an enum body, as the generator's patterns recognise it. Text they miss yields no variant,
   though Rust gives it a discriminant: `A = 0x10` is missed and has 16.
   */
  datatype Piece =
    | Bare(name: string)
    | Explicit(name: string, value: int)
    | Payload(name: string)
    | Missed(rust: int)

  datatype Variant = Variant(name: string, isUnit: bool, value: int)

  /** The discriminant a bare unit variant following `pieces` gets. */
  function NextImplicit(pieces: seq<Piece>): int {
    if pieces == [] then 0
    else
      var front, last := pieces[..|pieces| - 1], pieces[|pieces| - 1];
      match last
      case Explicit(_, value) => value + 1
      case Bare(_) => NextImplicit(front) + 1
      case _ => NextImplicit(front)
  }

  function Assigned(pieces: seq<Piece>): seq<Variant> {
    if pieces == [] then []
    else
      var front, last := pieces[..|pieces| - 1], pieces[|pieces| - 1];
      match last
      case Explicit(name, value) => Assigned(front) + [Variant(name, true, value)]
      case Bare(name) => Assigned(front) + [Variant(name, true, NextImplicit(front))]
      case Payload(name) => Assigned(front) + [Variant(name, false, 0)]
      case Missed(_) => Assigned(front)
  }

  /** The loop of `parseEnumVariants` over the recognised pieces. */
  method AssignDiscriminants(pieces: seq<Piece>) returns (variants: seq<Variant>)
    ensures variants == Assigned(pieces)
  {
    variants := [];
    var nextImplicit := 0;
    for i := 0 to |pieces|
      invariant variants == Assigned(pieces[..i]) && nextImplicit == NextImplicit(pieces[..i])
    {
      assert pieces[..i + 1][..i] == pieces[..i];
      match pieces[i]
      case Payload(name) =>
        variants := variants + [Variant(name, false, 0)];
      case Explicit(name, value) =>
        variants := variants + [Variant(name, true, value)];
        nextImplicit := value + 1;
      case Bare(name) =>
        variants := variants + [Variant(name, true, nextImplicit)];
        nextImplicit := nextImplicit + 1;
      case Missed(_) =>
    }
    assert pieces[..|pieces|] == pieces;
  }

  /** The pieces that yield a variant. */
  function Recognised(pieces: seq<Piece>): seq<Piece> {
    if pieces == [] then []
    else Recognised(pieces[..|pieces| - 1]) + (if pieces[|pieces| - 1].Missed? then [] else [pieces[|pieces| - 1]])
  }

  /**
   Every recognised piece yields its variant, in order: a unit exactly if it has no payload, with its own
   discriminant if it gives one.
   */
  lemma {:induction false} EveryRecognisedPieceAppears(pieces: seq<Piece>)
    ensures |Assigned(pieces)| == |Recognised(pieces)|
    ensures forall i :: 0 <= i < |Assigned(pieces)| ==>
              match Recognised(pieces)[i]
              case Payload(name) => Assigned(pieces)[i] == Variant(name, false, 0)
              case Explicit(name, value) => Assigned(pieces)[i] == Variant(name, true, value)
              case Bare(name) => Assigned(pieces)[i].name == name && Assigned(pieces)[i].isUnit
              case Missed(_) => false
  {
    if pieces != [] {
      EveryRecognisedPieceAppears(pieces[..|pieces| - 1]);
    }
  }

  function BareCount(pieces: seq<Piece>): nat {
    if pieces == [] then 0
    else BareCount(pieces[..|pieces| - 1]) + (if pieces[|pieces| - 1].Bare? then 1 else 0)
  }

  /**
   The number a bare variant gets behind `pieces`: it counts on from the last given discriminant, or from zero,
   over the bare variants alone.
   */
  lemma {:induction false} CounterCountsBareOnes(pieces: seq<Piece>, k: nat, name: string)
    requires k <= |pieces| && forall j :: k <= j < |pieces| ==> !pieces[j].Explicit?
    requires k == 0 || pieces[k - 1].Explicit?
    ensures NextImplicit(pieces) == (if k == 0 then 0 else pieces[k - 1].value + 1) + BareCount(pieces[k..])
    ensures Assigned(pieces + [Bare(name)]) == Assigned(pieces) + [Variant(name, true, NextImplicit(pieces))]
  {
    assert (pieces + [Bare(name)])[..|pieces|] == pieces;
    if |pieces| > k {
      var front := pieces[..|pieces| - 1];
      CounterCountsBareOnes(front, k, name);
      assert pieces[k..][..|pieces[k..]| - 1] == front[k..];
    }
  }

  /** An enum of unit variants only: the kind that travels as its discriminant. */
  predicate UnitOnly(pieces: seq<Piece>) {
    forall i :: 0 <= i < |pieces| ==> !pieces[i].Payload?
  }

  /** Rust's rule for variant `i`: the given discriminant, else one more than the variant before, else zero. */
  function RustDiscriminant(pieces: seq<Piece>, i: nat): int
    requires i < |pieces|
  {
    match pieces[i]
    case Explicit(_, value) => value
    case Missed(rust) => rust
    case _ => if i == 0 then 0 else RustDiscriminant(pieces, i - 1) + 1
  }

  /** The variants the patterns recognise, with the discriminants Rust gives them. */
  function RustVariants(pieces: seq<Piece>): seq<Variant> {
    if pieces == [] then []
    else
      var n := |pieces| - 1;
      RustVariants(pieces[..n]) +
      (if pieces[n].Missed? then [] else [Variant(NameOf(pieces[n]), true, RustDiscriminant(pieces, n))])
  }

  function NameOf(piece: Piece): string
    requires !piece.Missed?
  {
    piece.name
  }

  lemma {:induction false} RustLooksBackOnly(pieces: seq<Piece>, i: nat, n: nat)
    requires i < n <= |pieces|
    ensures RustDiscriminant(pieces[..n], i) == RustDiscriminant(pieces, i)
  {
    if i > 0 {
      RustLooksBackOnly(pieces, i - 1, n);
    }
  }

  /** Variant `i` is a bare one right behind one the patterns missed. */
  predicate BehindMissed(pieces: seq<Piece>, i: nat) {
    0 < i < |pieces| && pieces[i].Bare? && pieces[i - 1].Missed?
  }

  /** The counter the generator resumes with there is what Rust resumes with. */
  predicate Resumes(pieces: seq<Piece>, i: nat)
    requires BehindMissed(pieces, i)
  {
    NextImplicit(pieces[..i]) == pieces[i - 1].rust + 1
  }

  lemma {:induction false} RightUpTo(pieces: seq<Piece>)
    requires UnitOnly(pieces)
    ensures |Assigned(pieces)| == |RustVariants(pieces)|
    ensures Assigned(pieces) == RustVariants(pieces) <==>
            forall i: nat :: BehindMissed(pieces, i) ==> Resumes(pieces, i)
    ensures Assigned(pieces) == RustVariants(pieces) && pieces != [] && !pieces[|pieces| - 1].Missed? ==>
              NextImplicit(pieces) == RustDiscriminant(pieces, |pieces| - 1) + 1
  {
    if pieces != [] {
      var n := |pieces| - 1;
      var front := pieces[..n];
      RightUpTo(front);
      forall i: nat | i < n ensures BehindMissed(front, i) <==> BehindMissed(pieces, i) {
      }
      forall i: nat | i < n && BehindMissed(pieces, i) ensures Resumes(front, i) <==> Resumes(pieces, i) {
        assert front[..i] == pieces[..i];
      }
      if n > 0 {
        RustLooksBackOnly(pieces, n - 1, n);
      }
      LastIsRight(pieces);
    }
  }

  /** The step of the induction: the last piece adds a wrong constant only by failing to resume. */
  lemma {:induction false} LastIsRight(pieces: seq<Piece>)
    requires pieces != [] && !pieces[|pieces| - 1].Payload?
    requires var n := |pieces| - 1;
             var front := pieces[..n];
             && |Assigned(front)| == |RustVariants(front)|
             && (Assigned(front) == RustVariants(front) && n > 0 && !pieces[n - 1].Missed? ==>
                   NextImplicit(front) == RustDiscriminant(pieces, n - 1) + 1)
    ensures var n := |pieces| - 1;
            var front := pieces[..n];
            && |Assigned(pieces)| == |RustVariants(pieces)|
            && (Assigned(pieces) == RustVariants(pieces) <==>
                  Assigned(front) == RustVariants(front) && (BehindMissed(pieces, n) ==> Resumes(pieces, n)))
            && (Assigned(pieces) == RustVariants(pieces) && !pieces[n].Missed? ==>
                  NextImplicit(pieces) == RustDiscriminant(pieces, n) + 1)
  {
    var n := |pieces| - 1;
    var front := pieces[..n];
    var a, b := Assigned(front), RustVariants(front);
    if !pieces[n].Missed? {
      var x, y := Assigned(pieces)[|a|], RustVariants(pieces)[|b|];
      assert Assigned(pieces) == a + [x] && RustVariants(pieces) == b + [y];
      SameTail(a, x, b, y);
      if pieces[n].Bare? && n > 0 {
        assert y.value == RustDiscriminant(pieces, n - 1) + 1;
        assert pieces[n - 1].Missed? ==> (x.value == y.value <==> Resumes(pieces, n));
      }
    } else {
      assert Assigned(pieces) == a && RustVariants(pieces) == b + [] == b;
    }
  }

  lemma {:induction false} SameTail<T>(a: seq<T>, x: T, b: seq<T>, y: T)
    requires |a| == |b|
    ensures a + [x] == b + [y] <==> a == b && x == y
  {
    if a + [x] == b + [y] {
      assert a == (a + [x])[..|a|] && b == (b + [y])[..|b|];
      assert x == (a + [x])[|a|] && y == (b + [y])[|b|];
    }
  }

  /**
   The generated constants of a unit-only enum carry the discriminants Rust gives the variants, exactly
   when every bare variant behind a missed one finds the counter where Rust has it.
   */
  lemma {:induction false} DiscriminantsAreRustsIff(pieces: seq<Piece>)
    requires UnitOnly(pieces)
    ensures Assigned(pieces) == RustVariants(pieces) <==>
            forall i: nat :: BehindMissed(pieces, i) ==> Resumes(pieces, i)
  {
    RightUpTo(pieces);
  }

  /** What Rust and Soroban ask of the enum itself: discriminants that differ and are not negative. */
  ghost predicate Legal(pieces: seq<Piece>) {
    && (forall i :: 0 <= i < |pieces| ==> RustDiscriminant(pieces, i) >= 0)
    && (forall i, j :: 0 <= i < j < |pieces| ==> RustDiscriminant(pieces, i) != RustDiscriminant(pieces, j))
  }

  /** Before a missed variant the counter stands behind the last recognised one, or at zero. */
  lemma {:induction false} CounterStands(pieces: seq<Piece>, n: nat)
    requires UnitOnly(pieces) && n <= |pieces| && Assigned(pieces[..n]) == RustVariants(pieces[..n])
    ensures NextImplicit(pieces[..n]) == 0 ||
            exists k :: 0 <= k < n && !pieces[k].Missed? && NextImplicit(pieces[..n]) == RustDiscriminant(pieces, k) + 1
  {
    if n > 0 {
      var front := pieces[..n];
      assert front[..n - 1] == pieces[..n - 1];
      if pieces[n - 1].Missed? {
        assert RustVariants(front) == RustVariants(front[..n - 1]) + [] == RustVariants(front[..n - 1]);
        assert Assigned(front) == Assigned(front[..n - 1]) && NextImplicit(front) == NextImplicit(front[..n - 1]);
        CounterStands(pieces, n - 1);
      } else {
        RightUpTo(front);
        RustLooksBackOnly(pieces, n - 1, n);
        assert NextImplicit(front) == RustDiscriminant(pieces, n - 1) + 1;
      }
    }
  }

  lemma {:induction false} RightPrefix(pieces: seq<Piece>, n: nat)
    requires UnitOnly(pieces) && n <= |pieces| && Assigned(pieces) == RustVariants(pieces)
    ensures Assigned(pieces[..n]) == RustVariants(pieces[..n])
  {
    RightUpTo(pieces);
    var front := pieces[..n];
    forall i: nat | BehindMissed(front, i) ensures Resumes(front, i) {
      assert BehindMissed(pieces, i) && front[..i] == pieces[..i];
    }
    RightUpTo(front);
  }

  lemma {:induction false} BehindMissedIsWrong(pieces: seq<Piece>, i: nat)
    requires UnitOnly(pieces) && Legal(pieces) && BehindMissed(pieces, i)
    requires Assigned(pieces[..i - 1]) == RustVariants(pieces[..i - 1])
    ensures !Resumes(pieces, i)
  {
    CounterStands(pieces, i - 1);
    assert pieces[..i][..i - 1] == pieces[..i - 1];
    assert NextImplicit(pieces[..i]) == NextImplicit(pieces[..i - 1]);
    assert RustDiscriminant(pieces, i - 1) == pieces[i - 1].rust;
  }

  /** For legal enums: the constants are Rust's exactly when no bare variant stands right behind a missed one. */
  lemma {:induction false} LegalDiscriminantsAreRustsIff(pieces: seq<Piece>)
    requires UnitOnly(pieces) && Legal(pieces)
    ensures Assigned(pieces) == RustVariants(pieces) <==> forall i: nat :: !BehindMissed(pieces, i)
  {
    DiscriminantsAreRustsIff(pieces);
    if Assigned(pieces) == RustVariants(pieces) {
      forall i: nat ensures !BehindMissed(pieces, i) {
        if BehindMissed(pieces, i) {
          RightPrefix(pieces, i - 1);
          BehindMissedIsWrong(pieces, i);
        }
      }
    }
  }

  /** Every given discriminant is above the one before it. */
  ghost predicate ExplicitAscend(pieces: seq<Piece>) {
    forall i :: 0 < i < |pieces| && pieces[i].Explicit? ==> RustDiscriminant(pieces, i - 1) < pieces[i].value
  }

  /** Every variant was recognised. */
  predicate NoneMissed(pieces: seq<Piece>) {
    forall i :: 0 <= i < |pieces| ==> !pieces[i].Missed?
  }

  lemma {:induction false} RustVariantAt(pieces: seq<Piece>, i: nat)
    requires NoneMissed(pieces) && i < |pieces|
    ensures |RustVariants(pieces)| == |pieces|
    ensures RustVariants(pieces)[i] == Variant(NameOf(pieces[i]), true, RustDiscriminant(pieces, i))
  {
    var n := |pieces| - 1;
    if n > 0 {
      RustVariantAt(pieces[..n], if i < n then i else 0);
      if i < n {
        RustLooksBackOnly(pieces, i, n);
      }
    }
  }

  lemma {:induction false} AscendsFrom(pieces: seq<Piece>, i: nat, j: nat)
    requires UnitOnly(pieces) && NoneMissed(pieces) && ExplicitAscend(pieces) && i < j < |pieces|
    ensures RustDiscriminant(pieces, i) < RustDiscriminant(pieces, j)
  {
    if i < j - 1 {
      AscendsFrom(pieces, i, j - 1);
    }
  }

  /** The constants ascend in declaration order, so none collide on the wire, exactly when every given one does. */
  lemma {:induction false} ConstantsAscendIff(pieces: seq<Piece>)
    requires UnitOnly(pieces) && NoneMissed(pieces)
    ensures (forall i, j :: 0 <= i < j < |Assigned(pieces)| ==> Assigned(pieces)[i].value < Assigned(pieces)[j].value)
            <==> ExplicitAscend(pieces)
  {
    DiscriminantsAreRustsIff(pieces);
    forall i: nat | i < |pieces|
      ensures |Assigned(pieces)| == |pieces| && Assigned(pieces)[i].value == RustDiscriminant(pieces, i)
    {
      RustVariantAt(pieces, i);
    }
    if ExplicitAscend(pieces) {
      forall i, j | 0 <= i < j < |pieces| ensures Assigned(pieces)[i].value < Assigned(pieces)[j].value {
        AscendsFrom(pieces, i, j);
      }
    } else {
      var i :| 0 < i < |pieces| && pieces[i].Explicit? && RustDiscriminant(pieces, i - 1) >= pieces[i].value;
      assert Assigned(pieces)[i - 1].value >= Assigned(pieces)[i].value;
    }
  }
}
