/** Choosing the EVM token pool and token for transfers to Stellar from an unordered list of deployed addresses. */
module Pools {
  import opened Wrappers
  import opened Sorting

  datatype AddressRef = AddressRef(
    chainSelector: nat,
    ty: string,
    version: Option<string>,
    qualifier: string,
    address: string)

  const BURN_MINT_TOKEN_POOL := "BurnMintTokenPool"
  const DEVENV_TEST_QUALIFIER := "TEST"

  /** Token contract types, most likely first. */
  const TOKEN_TYPES: seq<string> := ["BurnMintERC20WithDripToken", "BurnMintERC20WithDrip", "BurnMintERC20Token"]

  function VersionString(v: Option<string>): string {
    if v.None? then "" else v.value
  }

  /** `strings.Contains`. */
  predicate Contains(s: string, sub: string) {
    sub <= s || (s != "" && Contains(s[1..], sub))
  }

  lemma {:induction false} ContainsBehind(s: string, sub: string, i: nat)
    requires i <= |s| && sub <= s[i..]
    ensures Contains(s, sub)
  {
    if i == 0 {
      assert s[0..] == s;
    } else {
      assert s[i..] == s[1..][i - 1..];
      ContainsBehind(s[1..], sub, i - 1);
    }
  }

  /** The search finds `sub` wherever in `s` it begins. */
  lemma {:induction false} ContainsExactly(s: string, sub: string)
    ensures Contains(s, sub) <==> exists i :: 0 <= i <= |s| && sub <= s[i..]
  {
    if i: nat :| i <= |s| && sub <= s[i..] {
      ContainsBehind(s, sub, i);
    }
    if Contains(s, sub) {
      if sub <= s {
        assert s[0..] == s;
      } else {
        ContainsExactly(s[1..], sub);
        var i :| 0 <= i <= |s[1..]| && sub <= s[1..][i..];
        assert s[i + 1..] == s[1..][i..];
      }
    }
  }

  function Preference(ref: AddressRef): nat {
    if Contains(ref.qualifier, "BurnMintTokenPool") && Contains(ref.qualifier, "to LockReleaseTokenPool") then 0
    else if DEVENV_TEST_QUALIFIER <= ref.qualifier then 1
    else 2
  }

  /** Go's three-way comparison of strings. */
  function CompareStrings(a: string, b: string): int {
    if a == b then 0 else if StringLeq(a, b) then -1 else 1
  }

  function Compare(a: AddressRef, b: AddressRef): int {
    if Preference(a) != Preference(b) then (if Preference(a) < Preference(b) then -1 else 1)
    else if VersionString(a.version) != VersionString(b.version) then
      CompareStrings(VersionString(a.version), VersionString(b.version))
    else if a.qualifier != b.qualifier then CompareStrings(a.qualifier, b.qualifier)
    else CompareStrings(a.address, b.address)
  }

  /** What the comparison looks at. */
  function Key(ref: AddressRef): (string, string, string) {
    (VersionString(ref.version), ref.qualifier, ref.address)
  }

  predicate NotAfter(a: AddressRef, b: AddressRef) {
    Compare(a, b) <= 0
  }

  // ---- The comparison is a total preorder ----

  lemma {:induction false} CompareStringsFlips(a: string, b: string)
    ensures CompareStrings(a, b) == -CompareStrings(b, a)
  {
    StringLeqTotal(a, b);
  }

  lemma {:induction false} CompareStringsChains(a: string, b: string, c: string)
    requires CompareStrings(a, b) <= 0 && CompareStrings(b, c) <= 0
    ensures CompareStrings(a, c) <= 0
    ensures CompareStrings(a, b) < 0 || CompareStrings(b, c) < 0 ==> a != c
  {
    StringLeqTotal(a, b);
    StringLeqTotal(b, c);
    StringLeqTotal(a, c);
    if a != b && b != c {
      StringLeqTransitive(a, b, c);
    }
  }

  /** Antisymmetric as a comparison, and zero exactly on equal keys. */
  lemma {:induction false} CompareFlips(a: AddressRef, b: AddressRef)
    ensures Compare(a, b) == -Compare(b, a)
    ensures Compare(a, b) == 0 <==> Key(a) == Key(b)
  {
    CompareStringsFlips(VersionString(a.version), VersionString(b.version));
    CompareStringsFlips(a.qualifier, b.qualifier);
    CompareStringsFlips(a.address, b.address);
  }

  /** What comes first: the preferred kind, then the lower version string, qualifier and address. */
  lemma {:induction false} ComparesInOrder(a: AddressRef, b: AddressRef)
    ensures var (av, aq, aa), (bv, bq, ba) := Key(a), Key(b);
            Compare(a, b) < 0 <==>
            || Preference(a) < Preference(b)
            || (Preference(a) == Preference(b) &&
                  (|| (av != bv && StringLeq(av, bv))
                   || (av == bv && aq != bq && StringLeq(aq, bq))
                   || (av == bv && aq == bq && aa != ba && StringLeq(aa, ba))))
  {
  }

  lemma {:induction false} CompareChains(a: AddressRef, b: AddressRef, c: AddressRef)
    requires NotAfter(a, b) && NotAfter(b, c)
    ensures NotAfter(a, c)
  {
    var av, bv, cv := VersionString(a.version), VersionString(b.version), VersionString(c.version);
    if Preference(a) == Preference(b) == Preference(c) {
      CompareStringsChains(av, bv, cv);
      if av == bv == cv {
        CompareStringsChains(a.qualifier, b.qualifier, c.qualifier);
        if a.qualifier == b.qualifier == c.qualifier {
          CompareStringsChains(a.address, b.address, c.address);
        }
      }
    }
  }

  lemma {:induction false} CompareIsTotalPreorder()
    ensures TotalPreorder(NotAfter)
  {
    forall a, b ensures NotAfter(a, b) || NotAfter(b, a) {
      CompareFlips(a, b);
    }
    forall a, b, c | NotAfter(a, b) && NotAfter(b, c) ensures NotAfter(a, c) {
      CompareChains(a, b, c);
    }
  }

  // ---- The search ----

  predicate IsPool(ref: AddressRef, chain: nat) {
    ref.chainSelector == chain && ref.ty == BURN_MINT_TOKEN_POOL
  }

  predicate IsToken(ref: AddressRef, chain: nat, ty: string, qualifier: string) {
    ref.chainSelector == chain && ref.ty == ty && ref.qualifier == qualifier
  }

  /** Some listed token of this type goes with the pool's qualifier. */
  predicate HasToken(refs: seq<AddressRef>, chain: nat, ty: string, qualifier: string) {
    exists ref :: ref in refs && IsToken(ref, chain, ty, qualifier)
  }

  /** The first token type for which there is a matching token. */
  ghost predicate IsChosenType(refs: seq<AddressRef>, chain: nat, qualifier: string, t: nat) {
    && t < |TOKEN_TYPES|
    && HasToken(refs, chain, TOKEN_TYPES[t], qualifier)
    && forall u :: 0 <= u < t ==> !HasToken(refs, chain, TOKEN_TYPES[u], qualifier)
  }

  predicate Servable(refs: seq<AddressRef>, chain: nat, qualifier: string) {
    exists t :: 0 <= t < |TOKEN_TYPES| && HasToken(refs, chain, TOKEN_TYPES[t], qualifier)
  }

  method FindTokenForPool(refs: seq<AddressRef>, chain: nat, qualifier: string) returns (token: Option<AddressRef>)
    ensures token.Some? <==> Servable(refs, chain, qualifier)
    ensures token.Some? ==>
              && token.value.chainSelector == chain && token.value.qualifier == qualifier
              && exists t :: 0 <= t < |TOKEN_TYPES| && token.value.ty == TOKEN_TYPES[t] &&
                   forall u, ref :: 0 <= u < t && ref in refs ==>
                     !(ref.chainSelector == chain && ref.ty == TOKEN_TYPES[u] && ref.qualifier == qualifier)
    ensures token.None? ==> forall ref :: ref in refs && ref.chainSelector == chain && ref.qualifier == qualifier ==>
              forall u :: 0 <= u < |TOKEN_TYPES| ==> ref.ty != TOKEN_TYPES[u]
    ensures token.Some? ==>
              && token.value in refs
              && exists t: nat :: IsChosenType(refs, chain, qualifier, t) &&
                   IsToken(token.value, chain, TOKEN_TYPES[t], qualifier)
  {
    for t := 0 to |TOKEN_TYPES|
      invariant forall u :: 0 <= u < t ==> !HasToken(refs, chain, TOKEN_TYPES[u], qualifier)
    {
      var tokenType := TOKEN_TYPES[t];
      for i := 0 to |refs|
        invariant forall j :: 0 <= j < i ==> !IsToken(refs[j], chain, tokenType, qualifier)
      {
        if IsToken(refs[i], chain, tokenType, qualifier) {
          assert IsChosenType(refs, chain, qualifier, t);
          return Some(refs[i]);
        }
      }
      assert !HasToken(refs, chain, TOKEN_TYPES[t], qualifier);
    }
    return None;
  }

  /** A pool that may be chosen: of the right kind and chain, with a matching token. */
  ghost predicate Candidate(refs: seq<AddressRef>, chain: nat, ref: AddressRef) {
    ref in refs && IsPool(ref, chain) && Servable(refs, chain, ref.qualifier)
  }

  datatype Choice = Choice(pool: AddressRef, token: AddressRef)

  /** The pool is a candidate none of the candidates comes before; its token has the first type available. */
  ghost predicate IsBestChoice(refs: seq<AddressRef>, chain: nat, c: Choice) {
    && Candidate(refs, chain, c.pool)
    && (forall p :: Candidate(refs, chain, p) ==> NotAfter(c.pool, p))
    && c.token in refs
    && exists t: nat :: IsChosenType(refs, chain, c.pool.qualifier, t) &&
         IsToken(c.token, chain, TOKEN_TYPES[t], c.pool.qualifier)
  }

  /** A BurnMint pool of the chain, and a token of a listed type there with the pool's qualifier. */
  predicate IsPair(refs: seq<AddressRef>, chain: nat, pool: AddressRef, token: AddressRef) {
    && pool in refs && pool.chainSelector == chain && pool.ty == "BurnMintTokenPool"
    && token in refs && token.chainSelector == chain && token.qualifier == pool.qualifier
    && token.ty in ["BurnMintERC20WithDripToken", "BurnMintERC20WithDrip", "BurnMintERC20Token"]
  }

  lemma {:induction false} BestChoiceIsPair(refs: seq<AddressRef>, chain: nat, c: Choice)
    requires IsBestChoice(refs, chain, c)
    ensures IsPair(refs, chain, c.pool, c.token)
  {
  }

  lemma {:induction false} NoCandidateNoPair(refs: seq<AddressRef>, chain: nat, pools: seq<AddressRef>)
    requires forall p :: p in pools <==> p in refs && IsPool(p, chain)
    requires forall j :: 0 <= j < |pools| ==> !Servable(refs, chain, pools[j].qualifier)
    ensures forall p :: !Candidate(refs, chain, p)
    ensures forall pool, token :: !IsPair(refs, chain, pool, token)
  {
    forall p ensures !Candidate(refs, chain, p) {
      if p in pools {
        var j :| 0 <= j < |pools| && pools[j] == p;
        assert !Servable(refs, chain, pools[j].qualifier);
      }
    }
    forall pool, token ensures !IsPair(refs, chain, pool, token) {
      if IsPair(refs, chain, pool, token) {
        PairIsCandidate(refs, chain, pool, token);
        assert false;
      }
    }
  }

  lemma {:induction false} PairIsCandidate(refs: seq<AddressRef>, chain: nat, pool: AddressRef, token: AddressRef)
    requires IsPair(refs, chain, pool, token)
    ensures Candidate(refs, chain, pool)
  {
    var t :| 0 <= t < |TOKEN_TYPES| && TOKEN_TYPES[t] == token.ty;
    assert IsToken(token, chain, TOKEN_TYPES[t], pool.qualifier);
    assert HasToken(refs, chain, TOKEN_TYPES[t], pool.qualifier);
  }

  /** The first loop: the pools of the right kind on the chain. */
  method BurnMintPools(refs: seq<AddressRef>, chain: nat) returns (pools: seq<AddressRef>)
    ensures forall p :: p in pools <==> p in refs && IsPool(p, chain)
  {
    pools := [];
    for i := 0 to |refs|
      invariant forall p :: p in pools <==> p in refs[..i] && IsPool(p, chain)
    {
      assert refs[..i + 1] == refs[..i] + [refs[i]];
      if IsPool(refs[i], chain) {
        pools := pools + [refs[i]];
      }
    }
    assert refs[..|refs|] == refs;
  }

  /** The second loop: the first pool with a token, and where it stands. */
  method FirstServable(refs: seq<AddressRef>, chain: nat, sorted: seq<AddressRef>)
    returns (choice: Option<Choice>, ghost at: nat)
    ensures choice.None? ==> forall j :: 0 <= j < |sorted| ==> !Servable(refs, chain, sorted[j].qualifier)
    ensures choice.Some? ==>
              && at < |sorted| && choice.value.pool == sorted[at] && Servable(refs, chain, sorted[at].qualifier)
              && (forall j :: 0 <= j < at ==> !Servable(refs, chain, sorted[j].qualifier))
              && choice.value.token in refs
              && exists t: nat :: IsChosenType(refs, chain, sorted[at].qualifier, t) &&
                   IsToken(choice.value.token, chain, TOKEN_TYPES[t], sorted[at].qualifier)
  {
    for i := 0 to |sorted|
      invariant forall j :: 0 <= j < i ==> !Servable(refs, chain, sorted[j].qualifier)
    {
      var token := FindTokenForPool(refs, chain, sorted[i].qualifier);
      if token.Some? {
        return Some(Choice(sorted[i], token.value)), i;
      }
    }
    return None, 0;
  }

  method ResolveTokenPool(refs: seq<AddressRef>, chain: nat) returns (choice: Option<Choice>)
    ensures choice.Some? <==> exists p :: Candidate(refs, chain, p)
    ensures choice.Some? ==> IsBestChoice(refs, chain, choice.value)
    ensures choice.Some? ==>
              IsPair(refs, chain, choice.value.pool, choice.value.token)
    ensures choice.None? ==> forall pool, token :: !IsPair(refs, chain, pool, token)
  {
    var pools := BurnMintPools(refs, chain);
    CompareIsTotalPreorder();
    SortPermutes(pools, NotAfter);
    SortSorts(pools, NotAfter);
    var sorted := Sort(pools, NotAfter);
    ghost var at: nat;
    choice, at := FirstServable(refs, chain, sorted);
    if choice.Some? {
      LeastServable(refs, chain, sorted, at);
      BestChoiceIsPair(refs, chain, choice.value);
    } else {
      NoCandidateNoPair(refs, chain, sorted);
    }
  }

  lemma {:induction false} LeastServable(refs: seq<AddressRef>, chain: nat, sorted: seq<AddressRef>, i: nat)
    requires i < |sorted| && Sorted(sorted, NotAfter)
    requires forall p :: p in sorted <==> p in refs && IsPool(p, chain)
    requires forall j :: 0 <= j < i ==> !Servable(refs, chain, sorted[j].qualifier)
    requires Servable(refs, chain, sorted[i].qualifier)
    ensures Candidate(refs, chain, sorted[i])
    ensures forall p :: Candidate(refs, chain, p) ==> NotAfter(sorted[i], p)
  {
    assert sorted[i] in sorted;
    forall p | Candidate(refs, chain, p) ensures NotAfter(sorted[i], p) {
      assert p in sorted;
      var j :| 0 <= j < |sorted| && sorted[j] == p;
      CompareFlips(sorted[i], sorted[i]);
    }
  }

  /** A BurnMint pool whose counterpart is a lock-release pool: its qualifier has both names somewhere. */
  ghost predicate PairsWithLockRelease(ref: AddressRef) {
    && (exists i :: 0 <= i <= |ref.qualifier| && "BurnMintTokenPool" <= ref.qualifier[i..])
    && (exists i :: 0 <= i <= |ref.qualifier| && "to LockReleaseTokenPool" <= ref.qualifier[i..])
  }

  /** A pair with a lock-release pool is chosen whenever there is one, and else a test pool whenever there is one. */
  lemma {:induction false} PreferredPoolIsChosen(refs: seq<AddressRef>, chain: nat, c: Choice, p: AddressRef)
    requires IsBestChoice(refs, chain, c) && Candidate(refs, chain, p)
    ensures PairsWithLockRelease(p) ==> PairsWithLockRelease(c.pool)
    ensures "TEST" <= p.qualifier ==>
              PairsWithLockRelease(c.pool) || "TEST" <= c.pool.qualifier
  {
    ContainsExactly(p.qualifier, "BurnMintTokenPool");
    ContainsExactly(p.qualifier, "to LockReleaseTokenPool");
    ContainsExactly(c.pool.qualifier, "BurnMintTokenPool");
    ContainsExactly(c.pool.qualifier, "to LockReleaseTokenPool");
    assert NotAfter(c.pool, p);
    assert Preference(c.pool) <= Preference(p);
  }

  // ---- Independence of the order of the list ----

  /** Lists with the same entries have the same candidates and the same token types. */
  lemma {:induction false} SameEntriesSameCandidates(refs: seq<AddressRef>, other: seq<AddressRef>, chain: nat)
    requires forall ref :: ref in refs <==> ref in other
    ensures forall ty, q :: HasToken(refs, chain, ty, q) <==> HasToken(other, chain, ty, q)
    ensures forall p :: Candidate(refs, chain, p) <==> Candidate(other, chain, p)
  {
    forall ty, q ensures HasToken(refs, chain, ty, q) <==> HasToken(other, chain, ty, q) {
    }
    forall q ensures Servable(refs, chain, q) <==> Servable(other, chain, q) {
    }
  }

  /** Whatever the order of the list, the chosen pool's key and the chosen token's type and qualifier are the same. */
  lemma {:induction false} ChoiceIgnoresOrder(refs: seq<AddressRef>, other: seq<AddressRef>, chain: nat, a: Choice, b: Choice)
    requires multiset(refs) == multiset(other)
    requires IsBestChoice(refs, chain, a) && IsBestChoice(other, chain, b)
    ensures Key(a.pool) == Key(b.pool)
    ensures a.token.ty == b.token.ty && a.token.qualifier == b.token.qualifier
  {
    PermutationMembers(refs, other);
    SameEntriesSameCandidates(refs, other, chain);
    CompareFlips(a.pool, b.pool);
    var t: nat :| IsChosenType(refs, chain, a.pool.qualifier, t) && IsToken(a.token, chain, TOKEN_TYPES[t], a.pool.qualifier);
    var u: nat :| IsChosenType(other, chain, b.pool.qualifier, u) && IsToken(b.token, chain, TOKEN_TYPES[u], b.pool.qualifier);
    assert t == u;
  }

  /** And whether a pool is found at all does not depend on the order. */
  lemma {:induction false} FoundIgnoresOrder(refs: seq<AddressRef>, other: seq<AddressRef>, chain: nat)
    requires multiset(refs) == multiset(other)
    ensures (exists p :: Candidate(refs, chain, p)) <==> exists p :: Candidate(other, chain, p)
  {
    PermutationMembers(refs, other);
    SameEntriesSameCandidates(refs, other, chain);
  }
}
