/**
 The identifier registry `Crystal`: its configuration (`base`, `bits`, `grow`),
 its ordered store of claimed identifiers, and the operations `claim`,
 `release`, `has` and the private collision-avoiding `generate` loop.

 The registry is an immutable value here: every operation returns the registry
 as it is afterwards instead of changing it in place.
 */
module Crystal {
  import opened Wrappers
  import opened Digits
  import opened RandomId

  const DefaultBase := 16
  const DefaultBits := 128
  const DefaultGrow := 32

  /** `generate` grows `bits` once its attempt counter, before the attempt, exceeds this. */
  const GrowAfter := 10

  /** The options object; `None` is a missing field, and an absent object has every field `None`. */
  datatype Options = Options(base: Option<int>, bits: Option<int>, grow: Option<int>)

  datatype Registry = Registry(base: int, bits: int, grow: int, store: seq<string>)

  /** The result of an explicit claim: the claimed id and the registry afterwards, or the duplicate. */
  datatype ClaimResult = Claimed(id: string, after: Registry) | DuplicateClaim(id: string)

  /** The result of `release`: the registry afterwards and the reported success. */
  datatype Released = Released(after: Registry, ok: bool)

  /** An option JavaScript's `||` replaces by its default: missing, or the falsy number 0. */
  predicate Falsy(o: Option<int>) {
    o.None? || o.value == 0
  }

  /** `o || default` on a numeric option. */
  function OrDefault(o: Option<int>, default: int): int {
    if Falsy(o) then default else o.value
  }

  /** The constructor: missing or falsy options take the defaults 16, 128 and 32; the store starts empty. */
  function New(opts: Options): (r: Registry)
    ensures r.base == (if Falsy(opts.base) then DefaultBase else opts.base.value)
    ensures r.bits == (if Falsy(opts.bits) then DefaultBits else opts.bits.value)
    ensures r.grow == (if Falsy(opts.grow) then DefaultGrow else opts.grow.value)
    ensures r.store == []
    ensures NoDuplicates(r.store)
  {
    Registry(OrDefault(opts.base, DefaultBase), OrDefault(opts.bits, DefaultBits), OrDefault(opts.grow, DefaultGrow), [])
  }

  /** The invariant claims keep: no identifier is stored twice. */
  predicate NoDuplicates(s: seq<string>) {
    forall i, j :: 0 <= i < j < |s| ==> s[i] != s[j]
  }

  /** `Array.prototype.indexOf`: the position of the first occurrence of `x`, or -1. */
  function IndexOf(s: seq<string>, x: string): (i: int)
    ensures -1 <= i < |s|
    ensures i == -1 <==> x !in s
    ensures 0 <= i ==> s[i] == x && forall j :: 0 <= j < i ==> s[j] != x
  {
    if |s| == 0 then
      -1
    else if s[0] == x then
      0
    else
      var i := IndexOf(s[1..], x);
      if i < 0 then -1 else i + 1
  }

  /** `has(id)`: whether `id` is currently claimed. */
  function Has(reg: Registry, id: string): (b: bool)
    ensures b <==> id in reg.store
  {
    IndexOf(reg.store, id) != -1
  }

  /**
   `claim(id)` with an explicit, non-empty id: fails with the duplicate id when it
   is already claimed; otherwise appends it at the end of the store and returns it.
   */
  function Claim(reg: Registry, id: string): (r: ClaimResult)
    requires id != ""
    ensures r.id == id
    ensures r.DuplicateClaim? <==> Has(reg, id)
    ensures r.Claimed? ==> r.after == reg.(store := reg.store + [id])
    ensures r.Claimed? ==> Has(r.after, id)
  {
    if Has(reg, id) then DuplicateClaim(id) else Claimed(id, reg.(store := reg.store + [id]))
  }

  /**
   `release(id)`: removes the first occurrence of `id`, keeping every other entry
   in its order; an id that is not stored leaves the store as it is. It always
   reports success.
   */
  function Release(reg: Registry, id: string): (r: Released)
    ensures r.ok
    ensures r.after.base == reg.base && r.after.bits == reg.bits && r.after.grow == reg.grow
    ensures id !in reg.store ==> r.after.store == reg.store
    ensures id in reg.store ==>
      exists p :: 0 <= p < |reg.store| && reg.store[p] == id && id !in reg.store[..p]
                  && r.after.store == reg.store[..p] + reg.store[p + 1..]
    ensures multiset(r.after.store) == multiset(reg.store) - multiset{id}
  {
    var s := reg.store;
    var pos := IndexOf(s, id);
    if pos > -1 then
      assert s == s[..pos] + [id] + s[pos + 1..];
      Released(reg.(store := s[..pos] + s[pos + 1..]), true)
    else
      Released(reg, true)
  }

  /** An independent definition of removing the first occurrence of `x`. */
  function RemoveFirst(s: seq<string>, x: string): seq<string> {
    if |s| == 0 then []
    else if s[0] == x then s[1..]
    else [s[0]] + RemoveFirst(s[1..], x)
  }

  /** `RemoveFirst` of an absent value changes nothing. */
  lemma {:induction false} RemoveFirstAbsent(s: seq<string>, x: string)
    requires x !in s
    ensures RemoveFirst(s, x) == s
    decreases |s|
  {
    if |s| > 0 {
      RemoveFirstAbsent(s[1..], x);
      assert s == [s[0]] + s[1..];
    }
  }

  /** `RemoveFirst` splices out the first occurrence of `x`, wherever it is. */
  lemma {:induction false} RemoveFirstSplices(s: seq<string>, x: string, p: nat)
    requires p < |s| && s[p] == x
    requires forall j :: 0 <= j < p ==> s[j] != x
    ensures RemoveFirst(s, x) == s[..p] + s[p + 1..]
    decreases p
  {
    if p == 0 {
      assert s[..0] + s[1..] == s[1..];
    } else {
      var tail := s[1..];
      assert s[0] != x;
      RemoveFirstSplices(tail, x, p - 1);
      assert RemoveFirst(s, x) == [s[0]] + (tail[..p - 1] + tail[p..]);
      assert s[..p] == [s[0]] + tail[..p - 1];
      assert s[p + 1..] == tail[p..];
    }
  }

  /** `release` removes exactly what `RemoveFirst` removes. */
  lemma ReleaseIsRemoveFirst(reg: Registry, id: string)
    ensures Release(reg, id).after.store == RemoveFirst(reg.store, id)
  {
    if id in reg.store {
      RemoveFirstSplices(reg.store, id, IndexOf(reg.store, id));
    } else {
      RemoveFirstAbsent(reg.store, id);
    }
  }

  /** Claiming keeps the store free of duplicates. */
  lemma ClaimKeepsNoDuplicates(reg: Registry, id: string)
    requires id != "" && NoDuplicates(reg.store)
    ensures Claim(reg, id).Claimed? ==> NoDuplicates(Claim(reg, id).after.store)
  {
  }

  /** On a duplicate-free store, `release(id)` keeps it duplicate-free and leaves `id` unclaimed. */
  lemma ReleaseKeepsNoDuplicates(reg: Registry, id: string)
    requires NoDuplicates(reg.store)
    ensures NoDuplicates(Release(reg, id).after.store)
    ensures !Has(Release(reg, id).after, id)
  {
  }

  /** Releasing an id that was just claimed gives back the registry from before the claim. */
  lemma ClaimReleaseRoundTrip(reg: Registry, id: string)
    requires id != "" && !Has(reg, id)
    ensures Claim(reg, id).Claimed?
    ensures Release(Claim(reg, id).after, id).after == reg
  {
  }

  /** Claiming the same id twice: the second claim fails, so the store grew by exactly one. */
  lemma ClaimTwiceFails(reg: Registry, id: string)
    requires id != "" && !Has(reg, id)
    ensures Claim(reg, id).Claimed?
    ensures Claim(Claim(reg, id).after, id) == DuplicateClaim(id)
    ensures |Claim(reg, id).after.store| == |reg.store| + 1
  {
  }

  /**
   `bits` while `generate` makes its `k`-th attempt (1-based): the attempt
   counter before attempt `k` is `k - 1`, and `grow` is added when it exceeds
   `GrowAfter`.
   */
  function BitsAt(reg: Registry, k: nat): int {
    if k == 0 then reg.bits
    else BitsAt(reg, k - 1) + (if k - 1 > GrowAfter then reg.grow else 0)
  }

  /** How many of the first `n` attempts grow `bits`: the 12th and every later one. */
  function Growths(n: nat): nat {
    if n <= GrowAfter + 1 then 0 else n - GrowAfter - 1
  }

  /** After `n` attempts, `bits` has grown by `grow` times `max(0, n - 11)`. */
  lemma {:induction false} BitsAtFormula(reg: Registry, n: nat)
    ensures BitsAt(reg, n) == reg.bits + reg.grow * Growths(n)
  {
    if n > 0 {
      BitsAtFormula(reg, n - 1);
      if n - 1 > GrowAfter {
        assert Growths(n) == Growths(n - 1) + 1;
        assert reg.grow * Growths(n) == reg.grow * Growths(n - 1) + reg.grow;
      }
    }
  }

  /**
   The random source of `generate`: `random(j, bits)` is the string that
   `random()` returns on attempt `j + 1` while the registry's `bits` is `bits`.
   */
  type Oracle = (nat, int) -> string

  /** The string `random()` returns on attempt `j + 1` of `generate`. */
  function Candidate(reg: Registry, random: Oracle, j: nat): string {
    random(j, BitsAt(reg, j + 1))
  }

  /** Some attempt yields an unclaimed candidate, so `generate` stops. */
  ghost predicate Terminates(reg: Registry, random: Oracle) {
    exists j: nat :: Candidate(reg, random, j) !in reg.store
  }

  /** Attempt `n` is the first one whose candidate is not claimed. */
  predicate FirstFresh(reg: Registry, random: Oracle, n: nat) {
    && 1 <= n
    && Candidate(reg, random, n - 1) !in reg.store
    && forall j: nat :: j < n - 1 ==> Candidate(reg, random, j) in reg.store
  }

  /** At most one attempt is the first fresh one. */
  lemma FirstFreshUnique(reg: Registry, random: Oracle, n: nat, m: nat)
    requires FirstFresh(reg, random, n) && FirstFresh(reg, random, m)
    ensures n == m
  {
  }

  /**
   The private `generate` loop: before each attempt after the 11th it adds `grow`
   to `bits`; it calls `random()` and stops at the first candidate that is not
   claimed. It returns that candidate, `bits` as it stands afterwards and the
   number of attempts made.
   */
  method Generate(reg: Registry, random: Oracle) returns (id: string, bits: int, n: nat)
    requires Terminates(reg, random)
    ensures FirstFresh(reg, random, n)
    ensures id == Candidate(reg, random, n - 1) && !Has(reg, id)
    ensures bits == BitsAt(reg, n) == reg.bits + reg.grow * Growths(n)
  {
    ghost var w: nat :| Candidate(reg, random, w) !in reg.store;
    var i := 0;
    bits := reg.bits;
    while true
      invariant 0 <= i <= w
      invariant bits == BitsAt(reg, i)
      invariant forall j: nat :: j < i ==> Candidate(reg, random, j) in reg.store
      decreases w - i
    {
      if i > GrowAfter {
        bits := bits + reg.grow;
      }
      i := i + 1;
      id := random(i - 1, bits);
      if !Has(reg, id) {
        n := i;
        BitsAtFormula(reg, n);
        return;
      }
    }
  }

  /**
   `claim()` with no argument: generates an id that is not claimed, appends it
   to the store and returns it. The registry keeps the `bits` that `generate`
   grew to; `base` and `grow` do not change.
   */
  method ClaimNew(reg: Registry, random: Oracle) returns (id: string, after: Registry)
    requires Terminates(reg, random)
    ensures id !in reg.store && Has(after, id)
    ensures after.store == reg.store + [id]
    ensures after.base == reg.base && after.grow == reg.grow
    ensures exists n: nat :: FirstFresh(reg, random, n) && id == Candidate(reg, random, n - 1)
                             && after.bits == BitsAt(reg, n)
    ensures NoDuplicates(reg.store) ==> NoDuplicates(after.store)
    ensures Step(reg, ClaimGenerated(id, after.bits), after)
  {
    var bits, n;
    id, bits, n := Generate(reg, random);
    after := reg.(bits := bits, store := reg.store + [id]);
    if NoDuplicates(reg.store) {
      forall i, j | 0 <= i < j < |after.store|
        ensures after.store[i] != after.store[j]
      {
        if j == |reg.store| {
          assert after.store[i] == reg.store[i];
        }
      }
    }
  }

  /**
   `claim()` followed by `claim(id)` of the id it returned: the explicit claim
   fails as a duplicate, and `has(id)` holds in between. A generated id is empty
   only when the digit count is 0; `claim('')` is not part of this model.
   */
  method ClaimGeneratedTwice(reg: Registry, random: Oracle) returns (id: string, after: Registry)
    requires Terminates(reg, random)
    ensures id !in reg.store && Has(after, id)
    ensures id != "" ==> Claim(after, id) == DuplicateClaim(id)
  {
    id, after := ClaimNew(reg, random);
  }

  /** A change to a registry, with the id it is given or generates and, for `claim()`, the grown `bits`. */
  datatype Op = ClaimId(id: string) | ClaimGenerated(id: string, bits: int) | ReleaseId(id: string)

  /**
   `next` is a registry `op` can leave behind `reg`: an explicit claim of a
   non-empty id (a failed one changes nothing), a `claim()` whose generated id
   was not claimed, or a release.
   */
  ghost predicate Step(reg: Registry, op: Op, next: Registry) {
    match op
    case ClaimId(id) =>
      id != "" && next == (if Claim(reg, id).Claimed? then Claim(reg, id).after else reg)
    case ClaimGenerated(id, bits) =>
      id !in reg.store && next == reg.(bits := bits, store := reg.store + [id])
    case ReleaseId(id) =>
      next == Release(reg, id).after
  }

  lemma StepKeepsNoDuplicates(reg: Registry, op: Op, next: Registry)
    requires NoDuplicates(reg.store) && Step(reg, op, next)
    ensures NoDuplicates(next.store)
  {
  }

  /** Every registry a run of operations reaches from a duplicate-free one is duplicate-free. */
  lemma {:induction false} RunKeepsNoDuplicates(states: seq<Registry>, ops: seq<Op>)
    requires |states| == |ops| + 1
    requires NoDuplicates(states[0].store)
    requires forall i :: 0 <= i < |ops| ==> Step(states[i], ops[i], states[i + 1])
    ensures forall i :: 0 <= i < |states| ==> NoDuplicates(states[i].store)
  {
    if |ops| > 0 {
      var last := |ops| - 1;
      RunKeepsNoDuplicates(states[..last + 1], ops[..last]);
      assert NoDuplicates(states[last].store);
      StepKeepsNoDuplicates(states[last], ops[last], states[last + 1]);
    }
  }

  /** One call of `random()` made by `generate`: its digit count and the draws it makes. */
  datatype Attempt = Attempt(shape: Shape, draws: seq<Draw>)

  /**
   `random` is what `random()` returns on the draws of `attempts`: each attempt
   fits the registry's base, and its outcome at the `bits` in force for it is
   that attempt's candidate.
   */
  predicate DrawnFrom(reg: Registry, random: Oracle, attempts: seq<Attempt>) {
    && IsBase(reg.base)
    && forall j :: 0 <= j < |attempts| ==>
         && AllFit(attempts[j].draws, attempts[j].shape, reg.base)
         && Outcome(attempts[j].draws, attempts[j].shape, reg.base, BitsAt(reg, j + 1))
            == Some(Candidate(reg, random, j))
  }

  /**
   An id that `generate` returns within the drawn attempts has the digit count
   of its attempt and a value below `2^bits` for the `bits` it leaves behind.
   */
  lemma GeneratedWithinBits(reg: Registry, random: Oracle, attempts: seq<Attempt>, n: nat)
    requires DrawnFrom(reg, random, attempts)
    requires FirstFresh(reg, random, n) && n <= |attempts|
    ensures |Candidate(reg, random, n - 1)| == Width(attempts[n - 1].shape)
    ensures AllDigits(Candidate(reg, random, n - 1), reg.base)
    ensures Accepts(Parse(Candidate(reg, random, n - 1), reg.base), BitsAt(reg, n))
  {
  }
}
