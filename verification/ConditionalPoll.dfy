/**
 The conditional `/peer` exchange: a poller echoes the tag of the last full body
 it kept, and an unchanged peer answers with a bodyless 304 that the poller
 replays. Over every run this leaves the same peer entry as polling in full.
 */
module ConditionalPoll {
  import opened Options
  import opened PeerTable
  import opened ClusterView

  const MAX_RESPONSE_BYTES := 262144
  const MAX_ETAG_LEN := 128

  // ----- payloads and tags -----

  datatype Countdown = Absent | NotANumber | In(seconds: real)
  datatype Summary = Summary(scheduledIn: Countdown, rest: string)

  /** A body: the canonical text of its election fields, and the fleet-view block. */
  datatype Payload = Payload(wire: string, summaries: map<string, Summary>, truncated: bool)

  datatype Moment = NoField | NoTime | At(epoch: int)
  datatype StableSummary = StableSummary(next: Moment, rest: string)

  /** A payload with every live countdown replaced by the absolute second it points at. */
  datatype Stable = Stable(wire: string, summaries: map<string, StableSummary>, truncated: bool)

  /** What the exchange needs of the wire: a digest, the validating parser, and the encoded size. */
  datatype Codec = Codec(hash: Stable -> string, parse: string -> Option<Observation>, size: Payload -> nat)

  /** The digest tells these stable payloads apart. */
  ghost predicate TellsApart(codec: Codec, served: set<Stable>) {
    forall a, b :: a in served && b in served && codec.hash(a) == codec.hash(b) ==> a == b
  }

  function Rounded(x: real): int {
    (x + 0.5).Floor
  }

  function StableSummaryOf(s: Summary, now: real): StableSummary {
    StableSummary(
      match s.scheduledIn
      case Absent => NoField
      case NotANumber => NoTime
      case In(seconds) => At(Rounded(now + seconds)),
      s.rest)
  }

  function StableOf(p: Payload, now: real): Stable {
    Stable(p.wire, map n | n in p.summaries :: StableSummaryOf(p.summaries[n], now), p.truncated)
  }

  function Etag(codec: Codec, p: Payload, now: real): string {
    codec.hash(StableOf(p, now))
  }

  // ----- the server -----

  /** An oversized body drops its fleet-view block. */
  function Shed(codec: Codec, p: Payload): Payload {
    if codec.size(p) > MAX_RESPONSE_BYTES && p.summaries != map[] then Payload(p.wire, map[], true) else p
  }

  datatype Reply = SslError | NetError | NotModified | Body(payload: Payload, tag: Option<string>)

  /** A current build tags what it actually sends; any other peer sends a body with some tag of its own or none. */
  datatype Build = Current(now: real) | Other(tag: Option<string>)

  function Answer(codec: Codec, p: Payload, build: Build, ifNoneMatch: Option<string>): Reply {
    match build
    case Other(tag) => Body(p, tag)
    case Current(now) =>
      var sent := Shed(codec, p);
      var tag := Etag(codec, sent, now);
      if ifNoneMatch == Some(tag) then NotModified else Body(sent, Some(tag))
  }

  /** Shedding keeps the election fields, touches no body that fits, and makes one fit whose fields alone do. */
  lemma ShedFits(codec: Codec, p: Payload)
    ensures Shed(codec, p).wire == p.wire
    ensures codec.size(p) <= 262144 ==> Shed(codec, p) == p
    ensures codec.size(Payload(p.wire, map[], true)) <= 262144 && p.summaries != map[] ==>
              codec.size(Shed(codec, p)) <= 262144
  {}

  /** A payload `d` seconds later, with nothing but its countdowns run down. */
  function Later(p: Payload, d: real): Payload {
    p.(summaries := map n | n in p.summaries ::
         var s := p.summaries[n];
         if s.scheduledIn.In? then s.(scheduledIn := In(s.scheduledIn.seconds - d)) else s)
  }

  /** Time alone does not change a tag. */
  lemma TagOutlivesCountdown(codec: Codec, p: Payload, now: real, d: real)
    ensures Etag(codec, Later(p, d), now + d) == Etag(codec, p, now)
  {
    var q := Later(p, d);
    forall n | n in p.summaries
      ensures StableSummaryOf(q.summaries[n], now + d) == StableSummaryOf(p.summaries[n], now)
    {
      var s := p.summaries[n];
      if s.scheduledIn.In? {
        assert (now + d) + (s.scheduledIn.seconds - d) == now + s.scheduledIn.seconds;
      }
    }
    assert StableOf(q, now + d) == StableOf(p, now);
  }

  // ----- the poller -----

  predicate Printable(c: char) {
    ' ' <= c <= '~'
  }

  predicate Storable(tag: string) {
    |tag| <= MAX_ETAG_LEN && forall c :: c in tag ==> Printable(c)
  }

  /** One peer's entry and the (tag, observation) kept for conditional polls. */
  datatype Client = Client(peer: Peer, cache: Option<(string, Observation)>)

  function Asked(c: Client): Option<string> {
    if c.cache.Some? then Some(c.cache.value.0) else None
  }

  function Keep(tag: Option<string>, o: Observation): Option<(string, Observation)> {
    if tag.Some? && Storable(tag.value) then Some((tag.value, o)) else None
  }

  function Observe(codec: Codec, me: Node, driftAfter: int, c: Client, reply: Reply, myId: string): Client {
    match reply
    case SslError => c.(peer := Failed(c.peer, true))
    case NetError => c.(peer := Failed(c.peer, false))
    case NotModified =>
      if c.cache.None? then c.(peer := Failed(c.peer, false))
      else c.(peer := Succeeded(c.peer, c.cache.value.1, me, myId, driftAfter))
    case Body(p, tag) =>
      if codec.size(p) > MAX_RESPONSE_BYTES then c.(peer := Failed(c.peer, false))
      else
        match codec.parse(p.wire)
        case None => c.(peer := Failed(c.peer, false))
        case Some(o) => Client(Succeeded(c.peer, o, me, myId, driftAfter), Keep(tag, o))
  }

  // ----- runs -----

  datatype Turn =
    | Served(payload: Payload, build: Build, myId: string)
    | Unserved(untrusted: bool)
    | Crashed
    | RoundEnd

  /** A tag another build made up is not the digest of a payload served. */
  ghost predicate Alien(codec: Codec, served: set<Stable>, tag: string) {
    forall s :: s in served ==> codec.hash(s) != tag
  }

  /** The turn serves one of these payloads, or a body whose tag is none of theirs. */
  ghost predicate Honest(codec: Codec, served: set<Stable>, t: Turn) {
    t.Served? ==>
      match t.build
      case Current(now) => StableOf(Shed(codec, t.payload), now) in served
      case Other(tag) => tag.Some? ==> Alien(codec, served, tag.value)
  }

  function Polled(codec: Codec, me: Node, driftAfter: int, c: Client, t: Turn, ask: bool): Client {
    match t
    case Served(p, build, myId) =>
      var reply := Answer(codec, p, build, if ask then Asked(c) else None);
      Observe(codec, me, driftAfter, c, reply, myId)
    case Unserved(untrusted) => Observe(codec, me, driftAfter, c, if untrusted then SslError else NetError, "")
    case Crashed => Client(Failed(c.peer, false), None)
    case RoundEnd => c.(peer := RoundEnded(c.peer))
  }

  /** A run of turns against a fresh entry, asking conditionally or never. */
  function Run(codec: Codec, me: Node, driftAfter: int, turns: seq<Turn>, ask: bool): Client {
    if turns == [] then Client(BLANK, None)
    else Polled(codec, me, driftAfter, Run(codec, me, driftAfter, turns[..|turns| - 1], ask), turns[|turns| - 1], ask)
  }

  /** A kept pair is some body that was sent, fitted and parsed, under its own tag. */
  ghost predicate Genuine(codec: Codec, served: set<Stable>, tag: string, o: Observation, p: Payload, now: real) {
    && StableOf(p, now) in served && tag == Etag(codec, p, now)
    && codec.parse(p.wire) == Some(o) && codec.size(p) <= MAX_RESPONSE_BYTES
  }

  ghost predicate CacheSound(codec: Codec, served: set<Stable>, c: Client) {
    c.cache.Some? ==>
      || Alien(codec, served, c.cache.value.0)
      || exists p, now :: Genuine(codec, served, c.cache.value.0, c.cache.value.1, p, now)
  }

  /** Equal tags mean equal election fields, and no countdown can make the second body outgrow the cap. */
  lemma EqualTags(codec: Codec, served: set<Stable>, tag: string, o: Observation, p: Payload, was: real,
                  q: Payload, now: real)
    requires TellsApart(codec, served) && Genuine(codec, served, tag, o, p, was)
    requires StableOf(Shed(codec, q), now) in served && Etag(codec, Shed(codec, q), now) == tag
    ensures codec.parse(Shed(codec, q).wire) == Some(o) && codec.size(Shed(codec, q)) <= MAX_RESPONSE_BYTES
  {
    var sent := Shed(codec, q);
    var a, b := StableOf(p, was), StableOf(sent, now);
    assert codec.hash(a) == codec.hash(b);
    assert a == b;
    if sent.summaries == map[] {
      assert a.summaries.Keys == p.summaries.Keys && b.summaries.Keys == {};
      assert p == sent;
    }
  }

  /** A 304 answers only a tag of ours. */
  lemma AlienNeverMatches(codec: Codec, served: set<Stable>, tag: string, q: Payload, now: real)
    requires Alien(codec, served, tag) && StableOf(q, now) in served
    ensures Etag(codec, q, now) != tag
  {}

  lemma ServedAlike(codec: Codec, served: set<Stable>, me: Node, driftAfter: int, c: Client, d: Client, t: Turn)
    requires TellsApart(codec, served) && Honest(codec, served, t) && t.Served?
    requires CacheSound(codec, served, c) && c.peer == d.peer
    ensures Polled(codec, me, driftAfter, c, t, true).peer == Polled(codec, me, driftAfter, d, t, false).peer
    ensures CacheSound(codec, served, Polled(codec, me, driftAfter, c, t, true))
  {
    hide Etag;
    hide Succeeded;
    hide Failed;
    hide Alien;
    hide Shed;
    hide StableOf;
    hide TellsApart;
    if t.build.Current? {
      var sent, now := Shed(codec, t.payload), t.build.now;
      var tag := Etag(codec, sent, now);
      if Asked(c) == Some(tag) {
        if Alien(codec, served, tag) {
          AlienNeverMatches(codec, served, tag, sent, now);
        }
        var p, was :| Genuine(codec, served, tag, c.cache.value.1, p, was);
        EqualTags(codec, served, tag, c.cache.value.1, p, was, t.payload, now);
      } else if codec.size(sent) <= MAX_RESPONSE_BYTES && codec.parse(sent.wire).Some? {
        assert Genuine(codec, served, tag, codec.parse(sent.wire).value, sent, now);
      }
    }
  }

  /** Conditional polling leaves what unconditional polling of the same payloads would leave. */
  lemma {:induction false} ConditionalIsUnconditional(codec: Codec, served: set<Stable>, me: Node, driftAfter: int,
                                                      turns: seq<Turn>)
    requires TellsApart(codec, served)
    requires forall t :: t in turns ==> Honest(codec, served, t)
    ensures Run(codec, me, driftAfter, turns, true).peer == Run(codec, me, driftAfter, turns, false).peer
    ensures CacheSound(codec, served, Run(codec, me, driftAfter, turns, true))
  {
    hide TellsApart;
    hide Honest;
    hide Genuine;
    hide Alien;
    if turns != [] {
      var rest, t := turns[..|turns| - 1], turns[|turns| - 1];
      assert t in turns;
      ConditionalIsUnconditional(codec, served, me, driftAfter, rest);
      if t.Served? {
        var c, d := Run(codec, me, driftAfter, rest, true), Run(codec, me, driftAfter, rest, false);
        ServedAlike(codec, served, me, driftAfter, c, d, t);
      }
    }
  }

  /** A peer whose stable payload has not changed is not sent again: it answers 304 to a tag that could be kept. */
  lemma UnchangedIsNotResent(codec: Codec, me: Node, driftAfter: int, c: Client, p: Payload, was: real, q: Payload,
                             now: real, myId: string)
    requires var sent := Shed(codec, p);
             && codec.size(sent) <= 262144 && codec.parse(sent.wire).Some?
             && |Etag(codec, sent, was)| <= 128 && forall x :: x in Etag(codec, sent, was) ==> ' ' <= x <= '~'
    requires StableOf(Shed(codec, q), now) == StableOf(Shed(codec, p), was)
    ensures var d := Observe(codec, me, driftAfter, c, Answer(codec, p, Current(was), None), myId);
            Answer(codec, q, Current(now), Asked(d)) == NotModified
  {
    hide Succeeded;
    hide Shed;
    hide StableOf;
  }

  // ----- what the turns say -----

  /**
   What a turn says to a poller that always asks in full: a body that fits and
   parses is an answer, everything else a failed poll.
   */
  function Heard(codec: Codec, t: Turn): Event {
    match t
    case Served(p, build, myId) =>
      var sent := if build.Current? then Shed(codec, p) else p;
      if codec.size(sent) <= 262144 && codec.parse(sent.wire).Some? then Success(codec.parse(sent.wire).value, myId)
      else Failure(false)
    case Unserved(untrusted) => Failure(untrusted)
    case Crashed => Failure(false)
    case RoundEnd => EndRound
  }

  function AllHeard(codec: Codec, turns: seq<Turn>): seq<Event> {
    seq(|turns|, i requires 0 <= i < |turns| => Heard(codec, turns[i]))
  }

  /** Unconditional polling leaves the entry that history leaves. */
  lemma {:induction false} UnconditionalIsHistory(codec: Codec, me: Node, driftAfter: int, turns: seq<Turn>)
    ensures Run(codec, me, driftAfter, turns, false).peer == ClusterView.Run(AllHeard(codec, turns), me, driftAfter)
  {
    hide Succeeded;
    hide Failed;
    hide RoundEnded;
    hide Shed;
    if turns != [] {
      var rest := turns[..|turns| - 1];
      UnconditionalIsHistory(codec, me, driftAfter, rest);
      assert AllHeard(codec, turns)[..|turns| - 1] == AllHeard(codec, rest);
    }
  }

  /** So does conditional polling: every law of histories holds of it. */
  lemma ConditionalIsHistory(codec: Codec, served: set<Stable>, me: Node, driftAfter: int, turns: seq<Turn>)
    requires TellsApart(codec, served)
    requires forall t :: t in turns ==> Honest(codec, served, t)
    ensures Run(codec, me, driftAfter, turns, true).peer == ClusterView.Run(AllHeard(codec, turns), me, driftAfter)
  {
    ConditionalIsUnconditional(codec, served, me, driftAfter, turns);
    UnconditionalIsHistory(codec, me, driftAfter, turns);
  }

  // ----- the mutable poller -----

  class Poller {
    const codec: Codec
    const me: Node
    const driftAfter: int
    const entry: PeerState
    var cache: Option<(string, Observation)>

    function State(): Client
      reads this, entry
    {
      Client(entry.value, cache)
    }

    constructor (codec: Codec, me: Node, driftAfter: int, entry: PeerState)
      ensures this.codec == codec && this.me == me && this.driftAfter == driftAfter
      ensures this.entry == entry && cache == None
    {
      this.codec, this.me, this.driftAfter, this.entry, cache := codec, me, driftAfter, entry, None;
    }

    method ObservePeer(reply: Reply, myId: string)
      modifies this, entry, entry.generation
      ensures State() == Observe(codec, me, driftAfter, old(State()), reply, myId)
    {
      hide Succeeded;
      hide Failed;
      match reply
      case SslError => entry.RecordFailure(true);
      case NetError => entry.RecordFailure(false);
      case NotModified =>
        if cache.None? {
          entry.RecordFailure(false);
        } else {
          entry.RecordSuccess(cache.value.1, me, myId, driftAfter);
        }
      case Body(p, tag) =>
        if codec.size(p) > MAX_RESPONSE_BYTES {
          entry.RecordFailure(false);
          return;
        }
        var parsed := codec.parse(p.wire);
        if parsed.None? {
          entry.RecordFailure(false);
          return;
        }
        entry.RecordSuccess(parsed.value, me, myId, driftAfter);
        if tag.Some? && Storable(tag.value) {
          cache := Some((tag.value, parsed.value));
        } else {
          cache := None;
        }
    }

    /** An unexpected error is a failed poll, and forces a full body next time. */
    method Crash()
      modifies this, entry, entry.generation
      ensures State() == Client(Failed(old(State()).peer, false), None)
    {
      entry.RecordFailure(false);
      cache := None;
    }
  }
}
