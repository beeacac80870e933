/**
 * The sequential proof-of-work search of SimplePOWEngine.calculateNonce:
 * an 8-byte nonce, zero at the start, is incremented in place before each
 * trial, and the search stops at the first nonce whose double SHA-512 of
 * nonce ‖ initialHash is not above the target in its leading 8 bytes.
 */
module ProofOfWork {
  import opened Wrappers
  import opened Bytes

  /** A SHA-512 digest, always 64 bytes long. */
  type Digest = s: seq<Byte> | |s| == 64 witness seq(64, _ => 0)

  /** The SHA-512 primitive of FIPS 180-4, left uninterpreted. */
  type Sha512 = seq<Byte> -> Digest

  /** Number of leading bytes of target and digest that the acceptance test compares. */
  const CompareBytes: nat := 8

  /** Width of the nonce counter in bytes. */
  const NonceBytes: nat := 8

  /** What a trial hashes: SHA-512 of SHA-512 of the nonce followed by the initial hash. */
  function TrialValue(sha512: Sha512, nonce: seq<Byte>, initialHash: seq<Byte>): Digest
  {
    sha512(sha512(nonce + initialHash))
  }

  /** The loop's exit test: the target is not below the trial value in the leading 8 bytes. */
  predicate Accepts(sha512: Sha512, initialHash: seq<Byte>, target: seq<Byte>, nonce: seq<Byte>)
    requires |target| >= CompareBytes
  {
    !LtBounded(target, TrialValue(sha512, nonce, initialHash), CompareBytes)
  }

  /** Acceptance is the non-strict test: leading 8 digest bytes, read unsigned, at most the target's. */
  lemma AcceptsIsAtMostTarget(sha512: Sha512, initialHash: seq<Byte>, target: seq<Byte>, nonce: seq<Byte>)
    requires |target| >= CompareBytes
    ensures Accepts(sha512, initialHash, target, nonce) <==>
      ToNat(TrialValue(sha512, nonce, initialHash)[..CompareBytes]) <= ToNat(target[..CompareBytes])
  {
    LtBoundedIsNumericLt(target, TrialValue(sha512, nonce, initialHash), CompareBytes);
  }

  /** The nonce of the k-th trial: the 8-byte counter after k increments from zero. */
  function TrialNonce(k: nat): (r: seq<Byte>)
    ensures |r| == NonceBytes
  {
    FromNat(k, NonceBytes)
  }

  /** Trials 1 .. 2^64 - 1 test the counter values 1 .. 2^64 - 1: nonce zero is never tried first. */
  lemma TrialNonceValue(k: nat)
    requires 1 <= k < Pow256(NonceBytes)
    ensures ToNat(TrialNonce(k)) == k
    ensures TrialNonce(k) != Zeros(NonceBytes)
  {
    ToNatFromNat(k, NonceBytes);
    DivModUnique(k, Pow256(NonceBytes), 0, k);
    ToNatZeros(NonceBytes);
  }

  /**
   * The first trial among from .. from + fuel - 1 whose nonce is accepted:
   * the reference for the search loop.
   */
  function FirstAccepted(sha512: Sha512, initialHash: seq<Byte>, target: seq<Byte>, from: nat, fuel: nat): (r: Option<nat>)
    requires |target| >= CompareBytes
    ensures r.Some? ==> from <= r.value < from + fuel
    decreases fuel
  {
    if fuel == 0 then None
    else if Accepts(sha512, initialHash, target, TrialNonce(from)) then Some(from)
    else FirstAccepted(sha512, initialHash, target, from + 1, fuel - 1)
  }

  /**
   * FirstAccepted finds the first accepted trial: the one it returns is
   * accepted and every trial before it is not; when it finds none, no trial
   * in the range is accepted.
   */
  lemma {:induction false} FirstAcceptedIsFirst(sha512: Sha512, initialHash: seq<Byte>, target: seq<Byte>, from: nat, fuel: nat)
    requires |target| >= CompareBytes
    ensures var r := FirstAccepted(sha512, initialHash, target, from, fuel);
      && (r.Some? ==> Accepts(sha512, initialHash, target, TrialNonce(r.value)))
      && (r.Some? ==> forall j :: from <= j < r.value ==> !Accepts(sha512, initialHash, target, TrialNonce(j)))
      && (r.None? ==> forall j :: from <= j < from + fuel ==> !Accepts(sha512, initialHash, target, TrialNonce(j)))
    decreases fuel
  {
    if fuel != 0 && !Accepts(sha512, initialHash, target, TrialNonce(from)) {
      FirstAcceptedIsFirst(sha512, initialHash, target, from + 1, fuel - 1);
    }
  }

  lemma TrialNonceZero()
    ensures TrialNonce(0) == Zeros(NonceBytes)
  {
    ToNatZeros(NonceBytes);
    FromNatToNat(Zeros(NonceBytes));
  }

  /** Incrementing the counter of trial k gives the counter of trial k + 1. */
  lemma NextTrialNonce(k: nat)
    ensures FromNat(ToNat(TrialNonce(k)) + 1, NonceBytes) == TrialNonce(k + 1)
  {
    FromNatSucc(k, NonceBytes);
  }

  /** One trial of the loop: trial k either is the answer or the search moves past it. */
  lemma SearchStep(sha512: Sha512, initialHash: seq<Byte>, target: seq<Byte>, k: nat, fuel: nat)
    requires |target| >= CompareBytes && 1 <= k <= fuel
    ensures Accepts(sha512, initialHash, target, TrialNonce(k)) ==>
      FirstAccepted(sha512, initialHash, target, k, fuel - k + 1) == Some(k)
    ensures !Accepts(sha512, initialHash, target, TrialNonce(k)) ==>
      FirstAccepted(sha512, initialHash, target, k, fuel - k + 1) == FirstAccepted(sha512, initialHash, target, k + 1, fuel - k)
  {
  }

  /** The callback invocation onNonceCalculated(initialHash, nonce). */
  datatype Callback = OnNonceCalculated(initialHash: seq<Byte>, nonce: seq<Byte>)

  /**
   * How a bounded search ends: with the accepted nonce, with the trial
   * budget spent (the source has no budget and would keep going), or with
   * the ApplicationException thrown when SHA-512 cannot be obtained.
   */
  datatype PowOutcome = Found(nonce: seq<Byte>) | OutOfFuel | ApplicationException

  /**
   * SimplePOWEngine.calculateNonce, run for at most fuel trials. sha512 is
   * None when MessageDigest.getInstance("SHA-512") fails. The callback
   * invocations are returned in calls, in order.
   */
  method CalculateNonce(initialHash: seq<Byte>, target: seq<Byte>, sha512: Option<Sha512>, fuel: nat)
    returns (r: PowOutcome, calls: seq<Callback>)
    requires |target| >= CompareBytes
    ensures sha512.None? ==> r == ApplicationException
    ensures sha512.Some? ==> r == match FirstAccepted(sha512.value, initialHash, target, 1, fuel)
                                 case Some(k) => Found(TrialNonce(k))
                                 case None => OutOfFuel
    ensures r.Found? ==> |r.nonce| == NonceBytes && Accepts(sha512.value, initialHash, target, r.nonce)
    ensures calls == if r.Found? then [OnNonceCalculated(initialHash, r.nonce)] else []
  {
    if sha512.None? {
      return ApplicationException, [];
    }
    FirstAcceptedIsFirst(sha512.value, initialHash, target, 1, fuel);
    var nonce := SearchNonce(initialHash, target, sha512.value, fuel);
    if nonce.Some? {
      r := Found(nonce.value);
      calls := [OnNonceCalculated(initialHash, nonce.value)];
    } else {
      r := OutOfFuel;
      calls := [];
    }
  }

  /** The nonce array of calculateNonce, new byte[8]: all zero, the counter before the first trial. */
  method NewNonce() returns (nonce: array<Byte>)
    ensures fresh(nonce) && nonce[..] == TrialNonce(0)
  {
    nonce := new Byte[NonceBytes](_ => 0);
    assert nonce[..] == Zeros(NonceBytes);
    TrialNonceZero();
  }

  /** Bytes.inc(nonce) at the head of a trial: the counter moves from trial k to trial k + 1. */
  method NextTrial(nonce: array<Byte>, ghost k: nat)
    requires nonce[..] == TrialNonce(k)
    modifies nonce
    ensures nonce[..] == TrialNonce(k + 1)
  {
    Inc(nonce);
    NextTrialNonce(k);
  }

  /** The do-while loop of calculateNonce: increment the nonce in place, hash, test. */
  method SearchNonce(initialHash: seq<Byte>, target: seq<Byte>, sha512: Sha512, fuel: nat)
    returns (found: Option<seq<Byte>>)
    requires |target| >= CompareBytes
    ensures found == match FirstAccepted(sha512, initialHash, target, 1, fuel)
                     case Some(k) => Some(TrialNonce(k))
                     case None => None
  {
    var nonce := NewNonce();
    var k: nat := 0;
    var accepted := false;
    while !accepted && k < fuel
      invariant k <= fuel
      invariant nonce[..] == TrialNonce(k)
      invariant accepted ==> 1 <= k && FirstAccepted(sha512, initialHash, target, 1, fuel) == Some(k)
      invariant !accepted ==> FirstAccepted(sha512, initialHash, target, 1, fuel) == FirstAccepted(sha512, initialHash, target, k + 1, fuel - k)
    {
      NextTrial(nonce, k);
      k := k + 1;
      var digest := sha512(sha512(nonce[..] + initialHash));
      accepted := !LtBounded(target, digest, CompareBytes);
      assert accepted == Accepts(sha512, initialHash, target, TrialNonce(k));
      SearchStep(sha512, initialHash, target, k, fuel);
    }
    found := if accepted then Some(nonce[..]) else None;
  }
}
