/**
 The predicate engine: the only place where a decision about hidden values becomes public. Both of
 its back ends are proved against the plain PRUNE and ACCEPT formulas, and its replay set against
 the pairs of names it has seen.
 */
module PredicateEngines {
  import opened Wrappers
  import NumberTheory
  import opened Paillier
  import opened SecureProtocols
  import opened SecureOps
  import opened Garbling
  import opened FusedProtocol

  datatype EngineError =
    | InvalidContext
    | WrongType
    | Denied
    | Replayed
    | MissingInputs
    | BackendFailed

  // ---------------------------------------------------------------- names and replay keys

  function Digit(d: nat): char
    requires d < 10
  {
    "0123456789"[d]
  }

  predicate IsDigit(c: char) {
    '0' <= c <= '9'
  }

  /** std::to_string of a size or counter. */
  function Decimal(n: nat): (s: string)
    ensures s != [] && forall i :: 0 <= i < |s| ==> IsDigit(s[i])
  {
    if n < 10 then [Digit(n)] else Decimal(n / 10) + [Digit(n % 10)]
  }

  lemma {:induction false} DecimalInjective(m: nat, n: nat)
    ensures Decimal(m) == Decimal(n) <==> m == n
  {
    assert m >= 10 <==> |Decimal(m)| > 1;
    assert n >= 10 <==> |Decimal(n)| > 1;
    if Decimal(m) == Decimal(n) {
      assert Decimal(m)[|Decimal(m)| - 1] == Digit(m % 10);
      assert Decimal(n)[|Decimal(n)| - 1] == Digit(n % 10);
      if m >= 10 && n >= 10 {
        assert Decimal(m)[..|Decimal(m)| - 1] == Decimal(m / 10);
        assert Decimal(n)[..|Decimal(n)| - 1] == Decimal(n / 10);
        DecimalInjective(m / 10, n / 10);
      }
    }
  }

  /** A number below 10^k has at most k digits. */
  function Pow10(k: nat): nat {
    if k == 0 then 1 else 10 * Pow10(k - 1)
  }

  lemma {:induction false} DecimalLength(n: nat, k: nat)
    requires n < Pow10(k) && 0 < k
    ensures |Decimal(n)| <= k
  {
    if n >= 10 && k > 1 {
      DecimalLength(n / 10, k - 1);
    }
  }

  predicate IdentifierChar(c: char) {
    'a' <= c <= 'z' || 'A' <= c <= 'Z' || IsDigit(c) || c in "-_.:"
  }

  predicate ValidIdentifier(s: string) {
    0 < |s| <= 128 && forall i :: 0 <= i < |s| ==> IdentifierChar(s[i])
  }

  /** Exactly the identifiers: 1 to 128 letters, digits, and the characters - _ . and : */
  lemma IdentifiersAre(s: string)
    ensures ValidIdentifier(s) <==> 1 <= |s| <= 128 && forall i :: 0 <= i < |s| ==>
      var c := s[i] as int;
      48 <= c <= 57 || 65 <= c <= 90 || 97 <= c <= 122 || c == 45 || c == 46 || c == 58 || c == 95
  {
  }

  /** Decimal writes the digits of a number. */
  lemma DecimalDigits(n: nat)
    ensures n < 10 ==> Decimal(n) == [(48 + n) as char]
    ensures 10 <= n ==> Decimal(n) == Decimal(n / 10) + [(48 + n % 10) as char]
  {
  }

  /** A field with its length in front. */
  function Field(s: string): string {
    Decimal(|s|) + ":" + s + "|"
  }

  function EngineKey(session: string, operation: string): string {
    Field(session) + Field(operation)
  }

  lemma FirstColon(s: string, rest: string)
    ensures var t := Field(s) + rest;
      && |Decimal(|s|)| < |t| && t[|Decimal(|s|)|] == ':'
      && t[..|Decimal(|s|)|] == Decimal(|s|)
      && t[|Decimal(|s|)| + 1..][..|s|] == s
      && t[|Field(s)|..] == rest
      && forall i :: 0 <= i < |Decimal(|s|)| ==> t[i] != ':'
  {
    var d := Decimal(|s|);
    hide Decimal;
    SplitAt(d, s, "|" + rest);
    assert Field(s) + rest == d + ":" + s + ("|" + rest);
    assert (d + ":" + s + ("|" + rest))[|Field(s)|..] == rest;
  }

  lemma SplitAt(d: string, s: string, rest: string)
    requires ':' !in d
    ensures var t := d + ":" + s + rest;
      t[|d|] == ':' && t[..|d|] == d && t[|d| + 1..][..|s|] == s && forall i :: 0 <= i < |d| ==> t[i] != ':'
  {
    var t := d + ":" + s + rest;
    assert t[|d| + 1..] == s + rest;
    assert forall i :: 0 <= i < |d| ==> t[i] == d[i];
  }

  /** A field can be read back from the front of any text. */
  lemma FieldInjective(a: string, b: string, x: string, y: string)
    requires Field(a) + x == Field(b) + y
    ensures a == b && x == y
  {
    FirstColon(a, x);
    FirstColon(b, y);
    DecimalInjective(|a|, |b|);
  }

  /** For arbitrary strings, the engine's replay key determines the session and the operation. */
  lemma EngineKeyInjective(s: string, o: string, s': string, o': string)
    ensures EngineKey(s, o) == EngineKey(s', o') <==> s == s' && o == o'
  {
    if EngineKey(s, o) == EngineKey(s', o') {
      FieldInjective(s, s', Field(o), Field(o'));
      assert Field(o) + "" == Field(o') + "";
      FieldInjective(o, o', "", "");
    }
  }

  // ---------------------------------------------------------------- inputs

  /** The hidden values a PRUNE decision is about. */
  datatype PruneInputs = PruneInputs(linearUpper: Ciphertext, costLowers: seq<Ciphertext>, hasIncumbent: bool,
    incumbentCost: Ciphertext)

  datatype AcceptInputs = AcceptInputs(linear: Ciphertext, c3: Ciphertext, cost: Ciphertext, c12: Ciphertext,
    hasIncumbent: bool, incumbentCost: Ciphertext, incumbentC12: Ciphertext)

  datatype PruneValues = PruneValues(linearUpper: int, costLowers: seq<int>, incumbentCost: int)

  datatype AcceptValues = AcceptValues(linear: int, c3: int, cost: int, c12: int, incumbentCost: int, incumbentC12: int)

  /** The decision that PRUNE must release. */
  predicate PruneDecision(hasIncumbent: bool, v: PruneValues) {
    v.linearUpper < 0 || (hasIncumbent && exists i :: 0 <= i < |v.costLowers| && v.costLowers[i] > v.incumbentCost)
  }

  /** The decision that ACCEPT must release. */
  predicate AcceptDecision(hasIncumbent: bool, v: AcceptValues) {
    && v.linear >= 0 && v.c3 > 0
    && (hasIncumbent ==>
          v.cost < v.incumbentCost || (v.cost == v.incumbentCost && v.c12 < v.incumbentC12))
  }

  ghost predicate PruneHolds(k: Key, inputs: PruneInputs, v: PruneValues) {
    && k.Holds(inputs.linearUpper, v.linearUpper) && InRange(v.linearUpper)
    && HoldsAll(k, inputs.costLowers, v.costLowers)
    && (inputs.hasIncumbent ==>
          && k.Holds(inputs.incumbentCost, v.incumbentCost) && InRange(v.incumbentCost)
          && forall i :: 0 <= i < |v.costLowers| ==> InRange(v.costLowers[i]))
  }

  ghost predicate AcceptHolds(k: Key, inputs: AcceptInputs, v: AcceptValues) {
    && k.Holds(inputs.linear, v.linear) && InRange(v.linear)
    && k.Holds(inputs.c3, v.c3) && InRange(v.c3)
    && k.Holds(inputs.cost, v.cost) && InRange(v.cost)
    && k.Holds(inputs.c12, v.c12) && InRange(v.c12)
    && (inputs.hasIncumbent ==>
          && k.Holds(inputs.incumbentCost, v.incumbentCost) && InRange(v.incumbentCost)
          && k.Holds(inputs.incumbentC12, v.incumbentC12) && InRange(v.incumbentC12))
  }

  /** The comparisons, as pairs to be tested for a > b, in circuit order. */
  function PrunePairs(hasIncumbent: bool, v: PruneValues): seq<(int, int)> {
    [(0, v.linearUpper)] +
    if hasIncumbent then
      seq(|v.costLowers|, i requires 0 <= i < |v.costLowers| => (v.costLowers[i], v.incumbentCost))
    else []
  }

  function AcceptPairs(hasIncumbent: bool, v: AcceptValues): seq<(int, int)> {
    [(0, v.linear), (v.c3, 0)] +
    if hasIncumbent then [(v.incumbentCost, v.cost), (v.cost, v.incumbentCost), (v.incumbentC12, v.c12)] else []
  }

  /** The circuit formulas over the comparison bits are the decisions over the values. */
  lemma PruneBits(hasIncumbent: bool, v: PruneValues)
    requires hasIncumbent ==> v.costLowers != []
    ensures BitsOk(PruneNode, GreaterBits(PrunePairs(hasIncumbent, v)), hasIncumbent)
    ensures Formula(PruneNode, GreaterBits(PrunePairs(hasIncumbent, v)), hasIncumbent) == PruneDecision(hasIncumbent, v)
  {
    var bits := GreaterBits(PrunePairs(hasIncumbent, v));
    assert hasIncumbent ==> forall i :: 0 <= i < |v.costLowers| ==>
      bits[i + 1] == (v.costLowers[i] > v.incumbentCost);
    if hasIncumbent && exists i :: 1 <= i < |bits| && bits[i] {
      var i :| 1 <= i < |bits| && bits[i];
      assert v.costLowers[i - 1] > v.incumbentCost;
    }
  }

  lemma AcceptBits(hasIncumbent: bool, v: AcceptValues)
    ensures BitsOk(AcceptCandidate, GreaterBits(AcceptPairs(hasIncumbent, v)), hasIncumbent)
    ensures Formula(AcceptCandidate, GreaterBits(AcceptPairs(hasIncumbent, v)), hasIncumbent)
         == AcceptDecision(hasIncumbent, v)
  {
  }

  /** The comparison list that PRUNE hands to either back end. */
  method PruneComparisons(k: Key, inputs: PruneInputs, ghost v: PruneValues)
    returns (items: seq<(Ciphertext, Ciphertext)>)
    requires k.Valid() && PruneHolds(k, inputs, v)
    ensures HoldsPairs(k, items, PrunePairs(inputs.hasIncumbent, v))
  {
    var zero := EncryptConstant(k, 0);
    items := [(zero, inputs.linearUpper)];
    if inputs.hasIncumbent {
      for i := 0 to |inputs.costLowers|
        invariant |items| == i + 1
        invariant HoldsPairs(k, items, PrunePairs(true, v)[..i + 1])
      {
        items := items + [(inputs.costLowers[i], inputs.incumbentCost)];
      }
    }
  }

  method AcceptComparisons(k: Key, inputs: AcceptInputs, ghost v: AcceptValues)
    returns (items: seq<(Ciphertext, Ciphertext)>)
    requires k.Valid() && AcceptHolds(k, inputs, v)
    ensures HoldsPairs(k, items, AcceptPairs(inputs.hasIncumbent, v))
  {
    var zero := EncryptConstant(k, 0);
    items := [(zero, inputs.linear), (inputs.c3, zero)];
    if inputs.hasIncumbent {
      items := items + [(inputs.incumbentCost, inputs.cost), (inputs.cost, inputs.incumbentCost),
                        (inputs.incumbentC12, inputs.c12)];
    }
  }

  // ---------------------------------------------------------------- the homomorphic circuits

  predicate Any(bs: seq<bool>) {
    exists i :: 0 <= i < |bs| && bs[i]
  }

  function PairUp<T>(xs: seq<T>): seq<(T, T)> {
    seq(|xs| / 2, i requires 0 <= i < |xs| / 2 => (xs[2 * i], xs[2 * i + 1]))
  }

  function OrPairs(bs: seq<bool>): seq<bool> {
    seq(|bs| / 2, i requires 0 <= i < |bs| / 2 => bs[2 * i] || bs[2 * i + 1]) +
    if |bs| % 2 == 1 then [bs[|bs| - 1]] else []
  }

  lemma AnyOrPairs(bs: seq<bool>)
    ensures Any(OrPairs(bs)) <==> Any(bs)
  {
    var next := OrPairs(bs);
    if Any(bs) {
      var i :| 0 <= i < |bs| && bs[i];
      assert next[i / 2];
    }
    if Any(next) {
      var i :| 0 <= i < |next| && next[i];
      assert bs[if i < |bs| / 2 && bs[2 * i] then 2 * i else if i < |bs| / 2 then 2 * i + 1 else |bs| - 1];
    }
  }

  /** The layered OR over the cost comparisons; every intermediate stays an encrypted bit. */
  method OrLayers(k: Key, bits: seq<Ciphertext>, ghost bs: seq<bool>)
    returns (r: Result<Ciphertext, ProtocolError>)
    requires k.Valid() && HoldsBits(k, bits, bs) && 0 < |bits| <= MAX_BATCH
    ensures r.Success? && HoldsBit(k, r.value, Any(bs))
  {
    var layer := bits;
    ghost var values := bs;
    while |layer| > 1
      invariant 0 < |layer| <= MAX_BATCH && HoldsBits(k, layer, values) && Any(values) == Any(bs)
      decreases |layer|
    {
      AnyOrPairs(values);
      ghost var next := OrPairs(values);
      var attempt := BitOrBatch(k, PairUp(layer), PairUp(values));
      match attempt
      case Failure(e) =>
        return Failure(e);
      case Success(combined) =>
      layer := if |layer| % 2 == 1 then combined + [layer[|layer| - 1]] else combined;
      values := next;
    }
    assert Any(values) == values[0];
    r := Success(layer[0]);
  }

  /** The homomorphic PRUNE circuit. */
  method PruneBit(k: Key, inputs: PruneInputs, ghost v: PruneValues) returns (r: Result<Ciphertext, ProtocolError>)
    requires k.Valid() && PruneHolds(k, inputs, v)
    requires inputs.hasIncumbent ==> inputs.costLowers != []
    ensures |PrunePairs(inputs.hasIncumbent, v)| <= MAX_BATCH ==>
      r.Success? && HoldsBit(k, r.value, PruneDecision(inputs.hasIncumbent, v))
  {
    var items := PruneComparisons(k, inputs, v);
    ghost var pairs := PrunePairs(inputs.hasIncumbent, v);
    ghost var bs := GreaterBits(pairs);
    var attempt := GreaterThanBatch(k, items, pairs);
    if attempt.Failure? {
      return attempt.PropagateFailure();
    }
    var bits := attempt.value;
    assert HoldsBits(k, bits, bs);
    var finalBit := bits[0];
    if inputs.hasIncumbent {
      var cost := OrLayers(k, bits[1..], bs[1..]);
      finalBit := BitOr(k, finalBit, cost.value, bs[0], Any(bs[1..]));
    }
    PruneBits(inputs.hasIncumbent, v);
    assert Any(bs[1..]) <==> exists i :: 1 <= i < |bs| && bs[i] by {
      if exists i :: 1 <= i < |bs| && bs[i] {
        var i :| 1 <= i < |bs| && bs[i];
        assert bs[1..][i - 1];
      }
    }
    r := Success(finalBit);
  }

  /** The homomorphic ACCEPT circuit; its two exclusive ORs are plain additions. */
  method AcceptBit(k: Key, inputs: AcceptInputs, ghost v: AcceptValues) returns (r: Ciphertext)
    requires k.Valid() && AcceptHolds(k, inputs, v)
    ensures HoldsBit(k, r, AcceptDecision(inputs.hasIncumbent, v))
  {
    var items := AcceptComparisons(k, inputs, v);
    ghost var pairs := AcceptPairs(inputs.hasIncumbent, v);
    ghost var bs := GreaterBits(pairs);
    var attempt := GreaterThanBatch(k, items, pairs);
    var compared := attempt.value;
    assert HoldsBits(k, compared, bs);
    var linearGe := BitNot(k, compared[0], bs[0]);
    var feasible := BitAnd(k, linearGe, compared[1], !bs[0], bs[1]);
    if !inputs.hasIncumbent {
      return feasible;
    }
    var costNeq := BitOrExclusive(k, compared[2], compared[3], bs[2], bs[3]);
    var costEq := BitNot(k, costNeq, bs[2] || bs[3]);
    var equalAndC12 := BitAnd(k, costEq, compared[4], !(bs[2] || bs[3]), bs[4]);
    var better := BitOrExclusive(k, compared[2], equalAndC12, bs[2], !(bs[2] || bs[3]) && bs[4]);
    r := BitAnd(k, feasible, better, !bs[0] && bs[1], bs[2] || (!(bs[2] || bs[3]) && bs[4]));
  }

  /** With the client's honest share, the P step shows the carried bit and changes nothing. */
  lemma RevealShows(k: Key, s: State, f: RevealFrame, b: bool)
    requires k.Valid() && HoldsBit(k, f.bit, b) && f.share == k.PartialDecrypt(k.lambda1, f.bit)
    ensures ContextOk(f.context) ==> RevealStep(k, s, f) == (s, Revealed(f.context, b))
  {
    k.ThresholdDecrypts(f.bit, BitValue(b));
    k.HoldsUnit(f.bit, BitValue(b));
    NumberTheory.SmallRemainder(BitValue(b), k.n);
    hide Key.Holds, Key.Valid, Key.Combine;
  }

  /** The client asks the server for a single bit by a P request. */
  method RevealFinalBit(csp: CspServer, context: PredicateContext, bit: Ciphertext, ghost b: bool)
    returns (r: Result<bool, EngineError>)
    requires csp.Valid() && csp.pending.None? && HoldsBit(csp.key, bit, b)
    modifies csp
    ensures csp.Valid() && csp.Current() == old(csp.Current())
    ensures r == if ContextOk(context) then Success(b) else Failure(BackendFailed)
  {
    hide Key.Holds;
    if !ContextOk(context) {
      return Failure(BackendFailed);
    }
    var k := csp.key;
    var f := RevealFrame(context, bit, k.PartialDecrypt(k.lambda1, bit));
    RevealShows(k, csp.Current(), f, b);
    var o := csp.OnReveal(f);
    r := if o.Revealed? then Success(o.bit) else Failure(BackendFailed);
  }

  // ---------------------------------------------------------------- the engine

  class PredicateEngine {
    const csp: CspServer
    const ot: OtKey
    const fusion: bool
    var consumed: set<string>

    /** The pairs behind the consumed keys, and the contexts that were let through to a back end. */
    ghost var seen: set<(string, string)>
    ghost var authorized: set<PredicateContext>
    ghost var reached: seq<PredicateContext>
    ghost var denials: nat

    constructor (csp: CspServer, ot: OtKey, fusion: bool)
      requires csp.Valid() && csp.pending.None? && ot.Valid()
      ensures Valid() && fresh(this)
      ensures this.csp == csp && this.ot == ot && this.fusion == fusion
      ensures seen == {} && reached == [] && denials == 0
    {
      this.csp, this.ot, this.fusion := csp, ot, fusion;
      consumed, seen, authorized, reached, denials := {}, {}, {}, [], 0;
    }

    ghost predicate Valid()
      reads this, csp
    {
      && csp.Valid() && csp.pending.None? && ot.Valid()
      && (forall pair :: pair in seen ==> EngineKey(pair.0, pair.1) in consumed)
      && (forall key :: key in consumed ==> exists pair :: pair in seen && key == EngineKey(pair.0, pair.1))
      && OncePerPair()
    }

    /** Every context let through was authorised, and no pair of names was let through twice. */
    ghost predicate OncePerPair()
      reads this
    {
      && (forall i :: 0 <= i < |reached| ==>
            reached[i] in authorized && (reached[i].session, reached[i].operation) in seen)
      && (forall i, j :: 0 <= i < j < |reached| ==>
            (reached[i].session, reached[i].operation) != (reached[j].session, reached[j].operation))
    }

    predicate ContextValid(context: PredicateContext) {
      ValidIdentifier(context.session) && ValidIdentifier(context.operation) && ValidIdentifier(context.node)
    }

    /** The authorizer is an arbitrary policy: every answer is possible. */
    method Authorize(context: PredicateContext) returns (ok: bool)
      modifies this`authorized, this`denials
      ensures authorized == if ok then old(authorized) + {context} else old(authorized)
      ensures denials == old(denials) + if ok then 0 else 1
    {
      ok := *;
      if ok {
        authorized := authorized + {context};
      } else {
        denials := denials + 1;
      }
    }

    /**
     Validation, authorisation and consumption, in this order. A pair of names passes at most once;
     rejection leaves the replay set as it was.
     */
    method AuthorizeAndConsume(context: PredicateContext, expected: PredicateType)
      returns (r: Result<(), EngineError>)
      requires Valid()
      modifies this
      ensures Valid() && old(authorized) <= authorized
      ensures r.Success? ==>
        && context in authorized && ContextValid(context) && context.kind == expected
        && (context.session, context.operation) !in old(seen)
        && seen == old(seen) + {(context.session, context.operation)} && reached == old(reached) + [context]
        && denials == old(denials)
      ensures r.Failure? ==> seen == old(seen) && consumed == old(consumed) && reached == old(reached)
      ensures r.Failure? ==>
        || (r.error == Denied && denials == old(denials) + 1)
        || (denials == old(denials) && match r.error
            case InvalidContext => !ContextValid(context)
            case WrongType => context.kind != expected
            case Replayed => (context.session, context.operation) in old(seen)
            case _ => false)
    {
      hide EngineKey, ValidIdentifier;
      if !ContextValid(context) {
        return Failure(InvalidContext);
      }
      if context.kind != expected {
        return Failure(WrongType);
      }
      var ok := Authorize(context);
      if !ok {
        return Failure(Denied);
      }
      var key := EngineKey(context.session, context.operation);
      forall pair | pair in seen
        ensures EngineKey(pair.0, pair.1) == key <==> pair == (context.session, context.operation)
      {
        EngineKeyInjective(pair.0, pair.1, context.session, context.operation);
      }
      if key in consumed {
        return Failure(Replayed);
      }
      consumed := consumed + {key};
      seen := seen + {(context.session, context.operation)};
      reached := reached + [context];
      r := Success(());
    }

    /**
     The conditions under which a predicate call goes through: what the caller names is acceptable
     and unused, here and (for the fused back end) at the server.
     */
    ghost predicate Fresh(context: PredicateContext, expected: PredicateType)
      reads this, csp
    {
      && ContextValid(context) && context.kind == expected
      && (context.session, context.operation) !in seen
      && (fusion ==> ReplayKey(context) !in csp.replays)
    }

    /**
     What every predicate call promises. A reached decision is the given one, for a context that
     was authorised and whose names were unused. Every failure has its cause, and a fresh context is
     refused only when this call's authorizer denies it.
     */
    twostate predicate Outcome(context: PredicateContext, kind: PredicateType, decision: bool,
        new r: Result<bool, EngineError>)
      reads this, csp
    {
      && (r.Success? ==>
            && r.value == decision && reached == old(reached) + [context] && context in authorized
            && (context.session, context.operation) !in old(seen)
            && seen == old(seen) + {(context.session, context.operation)})
      && (r.Failure? ==> Caused(context, kind, r.error))
      && denials == old(denials) + (if r == Failure(Denied) then 1 else 0)
      && (old(Valid() && Fresh(context, kind)) ==> r.Success? || r == Failure(Denied))
      && old(csp.replays) <= csp.replays <= old(csp.replays) + {ReplayKey(context)}
      && old(seen) <= seen <= old(seen) + {(context.session, context.operation)}
    }

    /** The cause of a failed call; only a back end's failure uses up the pair of names. */
    twostate predicate Caused(context: PredicateContext, kind: PredicateType, error: EngineError)
      reads this, csp
    {
      match error
      case InvalidContext => !ContextValid(context) && reached == old(reached)
      case WrongType => context.kind != kind && reached == old(reached)
      case Replayed => (context.session, context.operation) in old(seen) && reached == old(reached)
      case Denied => reached == old(reached)
      case BackendFailed => fusion && ReplayKey(context) in old(csp.replays) && reached == old(reached) + [context]
      case _ => false
    }

    /** The homomorphic back end's last step: authorise, then have the final bit revealed. */
    method EvaluateFinalBit(context: PredicateContext, kind: PredicateType, bit: Ciphertext, ghost b: bool)
      returns (r: Result<bool, EngineError>)
      requires Valid() && !fusion && HoldsBit(csp.key, bit, b)
      modifies this, csp
      ensures Valid() && Outcome(context, kind, b, r)
    {
      var pass := AuthorizeAndConsume(context, kind);
      if pass.Failure? {
        return Failure(pass.error);
      }
      r := RevealFinalBit(csp, context, bit, b);
    }

    /** The fused back end: authorise first, then run the exchange. */
    method EvaluateFused(context: PredicateContext, kind: PredicateType, items: seq<(Ciphertext, Ciphertext)>,
        ghost vs: seq<(int, int)>, hasIncumbent: bool)
      returns (r: Result<bool, EngineError>)
      requires Valid() && fusion && HoldsPairs(csp.key, items, vs) && |items| <= MAX_BATCH
      requires 0 < |items| && BitsOk(kind, GreaterBits(vs), hasIncumbent)
      modifies this, csp
      ensures Valid() && Outcome(context, kind, Formula(kind, GreaterBits(vs), hasIncumbent), r)
    {
      var pass := AuthorizeAndConsume(context, kind);
      if pass.Failure? {
        return Failure(pass.error);
      }
      var decision := FusedPredicate(csp, ot, context, items, vs, hasIncumbent);
      if decision.Failure? {
        return Failure(BackendFailed);
      }
      r := Success(decision.value);
    }

    /** PRUNE: with either back end, the decision over the carried values. */
    method PruneNode(context: PredicateContext, inputs: PruneInputs, ghost v: PruneValues)
      returns (r: Result<bool, EngineError>)
      requires Valid() && PruneHolds(csp.key, inputs, v) && |v.costLowers| < MAX_BATCH
      modifies this, csp
      ensures Valid()
      ensures if inputs.hasIncumbent && inputs.costLowers == [] then r == Failure(MissingInputs) && reached == old(reached)
        else Outcome(context, PredicateType.PruneNode, PruneDecision(inputs.hasIncumbent, v), r)
    {
      hide Key.Holds, ReplayKey, EngineKey, ValidIdentifier, PredicateEngine.OncePerPair, Key.Valid, OtKey.Valid, StateOk;
      if inputs.hasIncumbent && inputs.costLowers == [] {
        return Failure(MissingInputs);
      }
      PruneBits(inputs.hasIncumbent, v);
      if fusion {
        var items := PruneComparisons(csp.key, inputs, v);
        r := EvaluateFused(context, PredicateType.PruneNode, items, PrunePairs(inputs.hasIncumbent, v), inputs.hasIncumbent);
      } else {
        var bit := PruneBit(csp.key, inputs, v);
        if bit.Failure? {
          return Failure(BackendFailed);
        }
        r := EvaluateFinalBit(context, PredicateType.PruneNode, bit.value, PruneDecision(inputs.hasIncumbent, v));
      }
    }

    /** ACCEPT, likewise. */
    method AcceptCandidate(context: PredicateContext, inputs: AcceptInputs, ghost v: AcceptValues)
      returns (r: Result<bool, EngineError>)
      requires Valid() && AcceptHolds(csp.key, inputs, v)
      modifies this, csp
      ensures Valid()
      ensures Outcome(context, PredicateType.AcceptCandidate, AcceptDecision(inputs.hasIncumbent, v), r)
    {
      hide Key.Holds, ReplayKey, EngineKey, ValidIdentifier, PredicateEngine.OncePerPair, Key.Valid, OtKey.Valid, StateOk;
      AcceptBits(inputs.hasIncumbent, v);
      if fusion {
        var items := AcceptComparisons(csp.key, inputs, v);
        r := EvaluateFused(context, PredicateType.AcceptCandidate, items, AcceptPairs(inputs.hasIncumbent, v),
                           inputs.hasIncumbent);
      } else {
        var bit := AcceptBit(csp.key, inputs, v);
        r := EvaluateFinalBit(context, PredicateType.AcceptCandidate, bit, AcceptDecision(inputs.hasIncumbent, v));
      }
    }
  }
}
