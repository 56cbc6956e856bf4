/** TLS secrets: the domains their annotation lists and the expiry of their certificate chain. */
module Secrets {
  import opened Basics
  import Text

  /** Instants count from Go's zero time.Time, which stands for "no expiry known". */
  type Time = int
  const ZERO_TIME: Time := 0

  /** A PEM block of tls.crt: a certificate, parsed or not, or a block of another type. */
  datatype Block = Certificate(notAfter: Option<Time>) | OtherBlock

  /** A Kubernetes secret: its key, its domains annotation, the PEM blocks of tls.crt, all other data. */
  datatype Secret = Secret(namespace: string, name: string, domains: Option<string>,
                           tlsCrt: Option<seq<Block>>, data: string)
  {
    function Key(): NamespacedName { NamespacedName(namespace, name) }
  }

  /** Entries of a comma-separated list: trimmed, and without empty ones. */
  function Listed(parts: seq<string>): set<string> {
    (set i | 0 <= i < |parts| :: Text.TrimSpace(parts[i])) - {""}
  }

  /** The domains a secret is annotated with. */
  function DomainsOf(secret: Secret): set<string> {
    match secret.domains case None => {} case Some(list) => Listed(Text.Split(list, ','))
  }

  /** An annotation written as a comma-separated list lists the trimmed, non-empty entries of that list. */
  lemma DomainsOfList(secret: Secret, ds: seq<string>, d: string)
    requires secret.domains == Some(Text.Join(ds, ',')) && forall i | 0 <= i < |ds| :: Text.Free(ds[i], ',')
    ensures d in DomainsOf(secret) <==> d != "" && exists i | 0 <= i < |ds| :: Text.TrimSpace(ds[i]) == d
    ensures (forall i | 0 <= i < |ds| :: Text.Trimmed(ds[i]) && ds[i] != "") ==> (d in DomainsOf(secret) <==> d in ds)
  {
    if ds == [] {
      Text.SplitFree("", ',');
    } else {
      Text.SplitJoined(ds, ',');
    }
  }

  // ----- Certificate expiry -----

  /** The expiry times of the certificates that parse, in chain order. */
  function ParsedTimes(blocks: seq<Block>): seq<Time> {
    if blocks == [] then []
    else
      var last := blocks[|blocks| - 1];
      ParsedTimes(blocks[..|blocks| - 1]) +
      match last case Certificate(Some(t)) => [t] case _ => []
  }

  /** The running minimum the chain loop keeps; a zero minimum counts as none. */
  function ChainNotAfter(times: seq<Time>): Time {
    if times == [] then ZERO_TIME
    else
      var min, last := ChainNotAfter(times[..|times| - 1]), times[|times| - 1];
      if min == ZERO_TIME || last < min then last else min
  }

  function NotAfter(secret: Secret): Time {
    match secret.tlsCrt
    case None => ZERO_TIME
    case Some(blocks) => ChainNotAfter(ParsedTimes(blocks))
  }

  /** The parsed times are those of the certificates that parse, and keep the order of the blocks. */
  lemma {:induction false} ParsedTimesAre(blocks: seq<Block>, more: seq<Block>, t: Time)
    ensures t in ParsedTimes(blocks) <==> Certificate(Some(t)) in blocks
    ensures ParsedTimes(blocks + more) == ParsedTimes(blocks) + ParsedTimes(more)
    ensures ParsedTimes([Certificate(Some(t))]) == [t]
    decreases |blocks| + |more|
  {
    assert [Certificate(Some(t))][..0] == [];
    if blocks != [] {
      var init, last := blocks[..|blocks| - 1], blocks[|blocks| - 1];
      assert blocks == init + [last];
      ParsedTimesAre(init, [], t);
    }
    if more == [] {
      assert blocks + more == blocks;
    } else {
      var init := more[..|more| - 1];
      assert (blocks + more)[..|blocks + more| - 1] == blocks + init;
      ParsedTimesAre(blocks, init, t);
    }
  }

  /** What one more block does to the running minimum. */
  lemma ChainStep(blocks: seq<Block>, block: Block)
    ensures var min := ChainNotAfter(ParsedTimes(blocks));
      ChainNotAfter(ParsedTimes(blocks + [block])) ==
      match block
      case Certificate(Some(t)) => (if min == ZERO_TIME || t < min then t else min)
      case _ => min
  {
    assert (blocks + [block])[..|blocks|] == blocks;
    var times := ParsedTimes(blocks);
    match block
    case Certificate(Some(t)) => assert (times + [t])[..|times|] == times;
    case _ => assert times + [] == times;
  }

  method ParseCertificateNotAfter(secret: Option<Secret>) returns (minNotAfter: Time)
    ensures minNotAfter == match secret case None => ZERO_TIME case Some(s) => NotAfter(s)
  {
    if secret.None? || secret.value.tlsCrt.None? {
      return ZERO_TIME;
    }
    minNotAfter := ParseChain(secret.value.tlsCrt.value);
  }

  method ParseChain(blocks: seq<Block>) returns (minNotAfter: Time)
    ensures minNotAfter == ChainNotAfter(ParsedTimes(blocks))
  {
    minNotAfter := ZERO_TIME;
    var rest := blocks;
    ghost var seen: seq<Block> := [];
    while rest != []
      invariant seen + rest == blocks
      invariant minNotAfter == ChainNotAfter(ParsedTimes(seen))
      decreases |rest|
    {
      var block := rest[0];
      ChainStep(seen, block);
      assert seen + [block] + rest[1..] == seen + rest;
      seen, rest := seen + [block], rest[1..];
      if block.Certificate? && block.notAfter.Some? {
        if minNotAfter == ZERO_TIME || block.notAfter.value < minNotAfter {
          minNotAfter := block.notAfter.value;
        }
      }
    }
    assert seen + [] == seen;
  }

  predicate IsMinimum(times: seq<Time>, m: Time) {
    m in times && forall i | 0 <= i < |times| :: m <= times[i]
  }

  /** No expiry in the chain is the zero time, or an earlier or a final one outweighs it. */
  predicate ZeroTimeHarmless(times: seq<Time>) {
    || ZERO_TIME !in times
    || (exists i | 0 <= i < |times| :: times[i] < ZERO_TIME)
    || times[|times| - 1] == ZERO_TIME
  }

  lemma {:induction false} ChainBounds(times: seq<Time>)
    requires times != []
    ensures ChainNotAfter(times) in times
    ensures (exists i | 0 <= i < |times| :: times[i] < 0) ==> ChainNotAfter(times) < 0 && IsMinimum(times, ChainNotAfter(times))
    ensures 0 !in times ==> IsMinimum(times, ChainNotAfter(times))
    ensures (forall i | 0 <= i < |times| :: times[i] >= 0) ==> (ChainNotAfter(times) == 0 <==> times[|times| - 1] == 0)
  {
    var init, last := times[..|times| - 1], times[|times| - 1];
    assert times == init + [last];
    if init != [] {
      ChainBounds(init);
    }
  }

  /** The loop returns the earliest expiry of the chain exactly when no zero time misleads it. */
  lemma ChainIsMinimum(times: seq<Time>)
    requires times != []
    ensures IsMinimum(times, ChainNotAfter(times)) <==> ZeroTimeHarmless(times)
  {
    ChainBounds(times);
  }

  /** A zero time followed by a later one is forgotten. */
  lemma ZeroTimeMisleads()
    ensures ChainNotAfter([0, 5]) == 5 && !IsMinimum([0, 5], 5)
  {
    assert [0, 5][..1] == [0];
    assert [0, 5][0] < 5;
  }

  // ----- Validity -----

  datatype Validity = NotFound | Expired | Unknown | Valid {
    function Rank(): nat {
      match this case NotFound => 0 case Expired => 1 case Unknown => 2 case Valid => 3
    }
  }

  function ValidityAt(notAfter: Time, now: Time): Validity {
    if notAfter == ZERO_TIME then Unknown
    else if notAfter > now then Valid
    else Expired
  }

  /** Some certificate of the chain parses, and every parsed one expires later. */
  predicate AllExpireLater(times: seq<Time>, now: Time) {
    times != [] && forall i | 0 <= i < |times| :: times[i] > now
  }

  /** An expiry with no zero time after it has passed. */
  predicate ExpiredAfterZeros(times: seq<Time>, now: Time) {
    exists i | 0 <= i < |times| :: times[i] <= now && forall j | i <= j < |times| :: times[j] != ZERO_TIME
  }

  /** Past a zero time the chain loop starts over. */
  lemma {:induction false} ChainAfterZero(times: seq<Time>, z: nat)
    requires z < |times| - 1 && times[z] == ZERO_TIME
    requires forall i | 0 <= i < |times| :: times[i] >= ZERO_TIME
    requires forall i | z < i < |times| :: times[i] != ZERO_TIME
    ensures forall i | z < i < |times| :: ChainNotAfter(times) <= times[i]
    ensures exists i | z < i < |times| :: ChainNotAfter(times) == times[i]
  {
    var init, last := times[..|times| - 1], times[|times| - 1];
    assert times == init + [last];
    if z == |init| - 1 {
      ChainBounds(init);
      assert ChainNotAfter(times) == times[|times| - 1];
    } else {
      ChainAfterZero(init, z);
    }
  }

  lemma {:induction false} LastZero(times: seq<Time>) returns (z: nat)
    requires ZERO_TIME in times
    ensures z < |times| && times[z] == ZERO_TIME && forall i | z < i < |times| :: times[i] != ZERO_TIME
  {
    z := |times| - 1;
    if times[z] != ZERO_TIME {
      z := LastZero(times[..|times| - 1]);
    }
  }

  lemma ChainValidIff(times: seq<Time>, now: Time)
    requires now >= ZERO_TIME
    ensures (ValidityAt(ChainNotAfter(times), now) == Valid <==> AllExpireLater(times, now)) <==>
      ZeroTimeHarmless(times) || ExpiredAfterZeros(times, now)
  {
    if times != [] {
      ChainIsMinimum(times);
      if !ZeroTimeHarmless(times) {
        var z := LastZero(times);
        ChainAfterZero(times, z);
        assert !AllExpireLater(times, now);
      }
    }
  }

  /** A secret counts as valid just when some certificate of its chain parses and every parsed one expires later:
      this holds exactly when no zero time misleads the loop, or an expiry after the last zero time has passed
      and the secret counts as expired anyway. */
  lemma ValidExactly(secret: Secret, now: Time)
    requires now >= ZERO_TIME
    ensures var times := match secret.tlsCrt case Some(blocks) => ParsedTimes(blocks) case None => [];
      (ValidityAt(NotAfter(secret), now) == Valid <==> AllExpireLater(times, now)) <==>
      ZeroTimeHarmless(times) || ExpiredAfterZeros(times, now)
  {
    match secret.tlsCrt
    case Some(blocks) => ChainValidIff(ParsedTimes(blocks), now);
    case None => ChainValidIff([], now);
  }

  /** A certificate of the secret parses and expires at t. */
  ghost predicate Expires(secret: Secret, t: Time) {
    secret.tlsCrt.Some? && Certificate(Some(t)) in secret.tlsCrt.value
  }

  ghost predicate Harmless(secret: Secret) {
    secret.tlsCrt.None? || ZeroTimeHarmless(ParsedTimes(secret.tlsCrt.value))
  }

  lemma NotAfterBounds(secret: Secret)
    requires Harmless(secret)
    ensures (forall t :: !Expires(secret, t)) ==> NotAfter(secret) == ZERO_TIME
    ensures forall t | Expires(secret, t) :: NotAfter(secret) <= t && Expires(secret, NotAfter(secret))
  {
    if secret.tlsCrt.Some? {
      var blocks := secret.tlsCrt.value;
      forall t ensures t in ParsedTimes(blocks) <==> Expires(secret, t) { ParsedTimesAre(blocks, [], t); }
      if ParsedTimes(blocks) != [] {
        ChainIsMinimum(ParsedTimes(blocks));
        assert ParsedTimes(blocks)[0] in ParsedTimes(blocks);
      }
    }
  }

  /** The class of a secret read off its certificates, unless a zero expiry misleads: unknown when none parses or
      the earliest expiry is the zero time, valid when all that parse expire later, and expired otherwise. */
  lemma ClassExactly(secret: Secret, now: Time)
    requires now >= ZERO_TIME
    ensures Harmless(secret) ==>
      var class_ := ValidityAt(NotAfter(secret), now);
      && (class_ == Unknown <==>
            (forall t :: !Expires(secret, t)) || (Expires(secret, ZERO_TIME) && forall t | Expires(secret, t) :: t >= ZERO_TIME))
      && (class_ == Valid <==> (exists t :: Expires(secret, t)) && forall t | Expires(secret, t) :: t > now)
      && (class_ == Expired <==> class_ != Unknown && exists t | Expires(secret, t) :: t <= now)
    ensures !Harmless(secret) ==>
      var times := ParsedTimes(secret.tlsCrt.value);
      ValidityAt(NotAfter(secret), now) == if ExpiredAfterZeros(times, now) then Expired else Valid
  {
    if Harmless(secret) {
      NotAfterBounds(secret);
    } else {
      var times := ParsedTimes(secret.tlsCrt.value);
      var z := LastZero(times);
      ChainAfterZero(times, z);
    }
  }
}
