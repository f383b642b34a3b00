/** Safety of COSE_Sign1 over whole runs. Documents are signed, serialized, replaced by arbitrary
    bytes, read and opened in any order, under any number of keys. The signature scheme is ideal:
    the runs considered are those in which a key accepts no digest that it has not signed before. */
module SigningRuns {
  import opened BigEndian
  import opened CborValues
  import opened Crypto
  import HeaderMaps
  import opened Sign
  import opened SignVerify
  import opened Wrappers

  type KeyId = nat

  datatype World = World(hash: Hash, keys: KeyId -> SigningKey)

  /** What is signed and what is released: a key, protected bytes and a payload. */
  datatype Message = Message(key: KeyId, protected: seq<byte>, payload: seq<byte>)

  /** `digests` is the log of the ideal signature scheme. */
  datatype State = State(
    wire: set<seq<byte>>,
    documents: set<CoseSign1>,
    digests: set<(KeyId, seq<byte>)>,
    signed: set<Message>,
    released: set<Message>)

  datatype Event =
    | SignDocument(key: KeyId, payload: seq<byte>, protected: HeaderMaps.Header, unprotected: HeaderMaps.Header,
                   nonce: nat)
    | SerializeDocument(doc: CoseSign1, tagged: bool)
    | Inject(bytes: seq<byte>)
    | Receive(bytes: seq<byte>)
    | Open(doc: CoseSign1, key: KeyId)

  const INITIAL := State({}, {}, {}, {}, {})

  function DigestOf(w: World, m: Message): Result<seq<byte>> {
    var (_, digest) :- w.keys(m.key).parameters;
    StructDigest(w.hash, digest, m.protected, m.payload)
  }

  function Created(w: World, e: Event): Result<CoseSign1>
    requires e.SignDocument?
  {
    NewWithProtected(w.hash, e.payload, e.protected, e.unprotected, w.keys(e.key), e.nonce)
  }

  /** Whether the event can happen: serialized documents and received bytes exist, and a signature
      is accepted only for a digest that its key has signed before. */
  predicate Enabled(w: World, s: State, e: Event) {
    match e
    case SerializeDocument(doc, _) => doc in s.documents
    case Receive(bytes) => bytes in s.wire
    case Open(doc, key) =>
      && doc in s.documents
      && var d := DigestOf(w, Message(key, doc.protected, doc.payload));
      && (d.Success? && w.keys(key).verify(d.value, doc.signature) == Success(true) ==> (key, d.value) in s.digests)
    case _ => true
  }

  function Apply(w: World, s: State, e: Event): State {
    match e
    case SignDocument(key, payload, _, _, _) =>
      (match Created(w, e)
       case Success(doc) =>
         var m := Message(key, doc.protected, payload);
         s.(documents := s.documents + {doc},
            signed := s.signed + {m},
            digests := s.digests + (if DigestOf(w, m).Success? then {(key, DigestOf(w, m).value)} else {}))
       case _ => s)
    case SerializeDocument(doc, tagged) =>
      (match doc.AsBytes(tagged)
       case Success(bytes) => s.(wire := s.wire + {bytes})
       case _ => s)
    case Inject(bytes) => s.(wire := s.wire + {bytes})
    case Receive(bytes) =>
      (match Sign.FromBytes(bytes)
       case Success(doc) => s.(documents := s.documents + {doc})
       case _ => s)
    case Open(doc, key) =>
      (match GetPayload(doc, w.hash, Some(w.keys(key)))
       case Success(payload) => s.(released := s.released + {Message(key, doc.protected, payload)})
       case _ => s)
  }

  function Run(w: World, events: seq<Event>): State {
    if events == [] then INITIAL else Apply(w, Run(w, events[..|events| - 1]), events[|events| - 1])
  }

  predicate ValidRun(w: World, events: seq<Event>) {
    events != [] ==>
      var front := events[..|events| - 1];
      ValidRun(w, front) && Enabled(w, Run(w, front), events[|events| - 1])
  }

  ghost predicate Invariant(w: World, s: State) {
    && (forall k, d :: (k, d) in s.digests ==> exists m :: m in s.signed && m.key == k && DigestOf(w, m) == Success(d))
    && s.released <= s.signed
  }

  /** Equal digests under one key come from equal protected bytes and payloads. */
  lemma DigestInjective(w: World, a: Message, b: Message)
    requires InjectiveHash(w.hash) && a.key == b.key
    requires DigestOf(w, a).Success? && DigestOf(w, a) == DigestOf(w, b)
    ensures a == b
  {
    hide InjectiveHash, StructDigest;
    var digest := w.keys(a.key).parameters.value.1;
    StructDigestInjective(w.hash, digest, a.protected, a.payload, b.protected, b.payload);
  }

  lemma OpenIsSafe(w: World, s: State, doc: CoseSign1, key: KeyId)
    requires InjectiveHash(w.hash) && Invariant(w, s) && Enabled(w, s, Open(doc, key))
    requires GetPayload(doc, w.hash, Some(w.keys(key))).Success?
    ensures GetPayload(doc, w.hash, Some(w.keys(key))).value == doc.payload
    ensures Message(key, doc.protected, doc.payload) in s.signed
  {
    hide StructDigest, HeaderMaps.FromBytes, VerifySignature, InjectiveHash;
    ReleasedOnlyIfVerified(doc, w.hash, w.keys(key));
    VerifiedMeans(doc, w.hash, w.keys(key));
    var m := Message(key, doc.protected, doc.payload);
    var d := DigestOf(w, m).value;
    assert (key, d) in s.digests;
    var m' :| m' in s.signed && m'.key == key && DigestOf(w, m') == Success(d);
    DigestInjective(w, m, m');
  }

  lemma StepKeepsInvariant(w: World, s: State, e: Event)
    requires InjectiveHash(w.hash) && Invariant(w, s) && Enabled(w, s, e)
    ensures Invariant(w, Apply(w, s, e))
  {
    hide InjectiveHash, DigestOf, GetPayload, Sign.FromBytes, NewWithProtected;
    var s' := Apply(w, s, e);
    match e
    case SignDocument(_, _, _, _, _) =>
      forall k, d | (k, d) in s'.digests
        ensures exists m :: m in s'.signed && m.key == k && DigestOf(w, m) == Success(d)
      {
        if (k, d) in s.digests {
          var m :| m in s.signed && m.key == k && DigestOf(w, m) == Success(d);
          assert m in s'.signed;
        } else {
          assert Message(e.key, Created(w, e).value.protected, e.payload) in s'.signed;
        }
      }
    case Open(doc, key) =>
      if GetPayload(doc, w.hash, Some(w.keys(key))).Success? {
        OpenIsSafe(w, s, doc, key);
      }
    case _ =>
  }

  lemma {:induction false} RunKeepsInvariant(w: World, events: seq<Event>)
    requires InjectiveHash(w.hash) && ValidRun(w, events)
    ensures Invariant(w, Run(w, events))
  {
    hide InjectiveHash, Enabled, Apply;
    if events == [] {
      assert Invariant(w, INITIAL);
    } else {
      var front := events[..|events| - 1];
      RunKeepsInvariant(w, front);
      StepKeepsInvariant(w, Run(w, front), events[|events| - 1]);
    }
  }

  /** The event creates a document with exactly this payload and these protected bytes. */
  predicate SignsMessage(w: World, e: Event, m: Message) {
    && e.SignDocument? && e.key == m.key && e.payload == m.payload
    && Created(w, e).Success?
    && Created(w, e).value.protected == m.protected
    && HeaderMaps.EmptyOrSerialized(e.protected) == Success(m.protected)
  }

  /** The event signs this digest under this key. */
  predicate SignsDigest(w: World, e: Event, key: KeyId, d: seq<byte>) {
    && e.SignDocument? && e.key == key && Created(w, e).Success?
    && DigestOf(w, Message(key, Created(w, e).value.protected, e.payload)) == Success(d)
  }

  predicate PutsOnWire(e: Event, bytes: seq<byte>) {
    || e == Inject(bytes)
    || (e.SerializeDocument? && e.doc.AsBytes(e.tagged) == Success(bytes))
  }

  predicate MakesDocument(w: World, e: Event, doc: CoseSign1) {
    || (e.SignDocument? && Created(w, e) == Success(doc))
    || (e.Receive? && Sign.FromBytes(e.bytes) == Success(doc))
  }

  predicate Releases(w: World, e: Event, m: Message) {
    && e.Open? && e.key == m.key && e.doc.protected == m.protected
    && GetPayload(e.doc, w.hash, Some(w.keys(e.key))) == Success(m.payload)
  }

  predicate OnWire(events: seq<Event>, bytes: seq<byte>) {
    exists e :: e in events && PutsOnWire(e, bytes)
  }

  predicate MadeOrRead(w: World, events: seq<Event>, doc: CoseSign1) {
    exists e :: e in events && MakesDocument(w, e, doc)
  }

  predicate DigestSignedIn(w: World, events: seq<Event>, key: KeyId, d: seq<byte>) {
    exists e :: e in events && SignsDigest(w, e, key, d)
  }

  predicate SignedIn(w: World, events: seq<Event>, m: Message) {
    exists e :: e in events && SignsMessage(w, e, m)
  }

  predicate ReleasedIn(w: World, events: seq<Event>, m: Message) {
    exists e :: e in events && Releases(w, e, m)
  }

  /** The state is the history: what is on the wire, which documents exist, which digests and messages were
      signed and what was released is exactly what the events so far did. */
  lemma {:induction false} StateIsHistory(w: World, events: seq<Event>, bytes: seq<byte>, doc: CoseSign1,
                                          key: KeyId, d: seq<byte>, m: Message)
    ensures bytes in Run(w, events).wire <==> OnWire(events, bytes)
    ensures doc in Run(w, events).documents <==> MadeOrRead(w, events, doc)
    ensures (key, d) in Run(w, events).digests <==> DigestSignedIn(w, events, key, d)
    ensures m in Run(w, events).signed <==> SignedIn(w, events, m)
    ensures m in Run(w, events).released <==> ReleasedIn(w, events, m)
  {
    hide Apply, PutsOnWire, MakesDocument, SignsDigest, SignsMessage, Releases;
    if events != [] {
      var front, last := events[..|events| - 1], events[|events| - 1];
      StateIsHistory(w, front, bytes, doc, key, d, m);
      StepEffects(w, Run(w, front), last, bytes, doc, key, d, m);
      assert events == front + [last];
    }
  }

  lemma StepEffects(w: World, s: State, e: Event, bytes: seq<byte>, doc: CoseSign1,
                    key: KeyId, d: seq<byte>, m: Message)
    ensures bytes in Apply(w, s, e).wire <==> bytes in s.wire || PutsOnWire(e, bytes)
    ensures doc in Apply(w, s, e).documents <==> doc in s.documents || MakesDocument(w, e, doc)
    ensures (key, d) in Apply(w, s, e).digests <==> (key, d) in s.digests || SignsDigest(w, e, key, d)
    ensures m in Apply(w, s, e).signed <==> m in s.signed || SignsMessage(w, e, m)
    ensures m in Apply(w, s, e).released <==> m in s.released || Releases(w, e, m)
  {
    hide NewWithProtected, DigestOf, GetPayload, Sign.FromBytes, CoseSign1.AsBytes, HeaderMaps.EmptyOrSerialized;
    if e.SignDocument? && Created(w, e).Success? {
      CreatedProtected(w, e);
    }
  }

  lemma CreatedProtected(w: World, e: Event)
    requires e.SignDocument? && Created(w, e).Success?
    ensures HeaderMaps.EmptyOrSerialized(e.protected) == Success(Created(w, e).value.protected)
    ensures Created(w, e).value.payload == e.payload
  {
    hide HeaderMaps.EmptyOrSerialized, StructDigest;
  }

  lemma {:induction false} PrefixOfRun(w: World, events: seq<Event>, n: nat)
    requires n <= |events| && ValidRun(w, events)
    ensures ValidRun(w, events[..n])
  {
    if n == |events| {
      assert events[..n] == events;
    } else {
      var front := events[..|events| - 1];
      PrefixOfRun(w, front, n);
      assert front[..n] == events[..n];
    }
  }

  /** Run safety. Whenever a document is opened under a key in a run, its payload was signed under
      that key, with the very same protected bytes, in an earlier step of the run. */
  lemma RunSafety(w: World, events: seq<Event>, i: nat)
    requires InjectiveHash(w.hash) && ValidRun(w, events)
    requires i < |events| && events[i].Open?
    requires GetPayload(events[i].doc, w.hash, Some(w.keys(events[i].key))).Success?
    ensures
      var Open(doc, key) := events[i];
      var m := Message(key, doc.protected, GetPayload(doc, w.hash, Some(w.keys(key))).value);
      exists j :: 0 <= j < i && SignsMessage(w, events[j], m)
  {
    hide InjectiveHash, Enabled, Apply, GetPayload, Run, SignsMessage;
    var Open(doc, key) := events[i];
    var before := events[..i];
    PrefixOfRun(w, events, i + 1);
    assert events[..i + 1][..i] == before;
    RunKeepsInvariant(w, before);
    OpenIsSafe(w, Run(w, before), doc, key);
    var m := Message(key, doc.protected, doc.payload);
    StateIsHistory(w, before, [], doc, key, [], m);
    var e :| e in before && SignsMessage(w, e, m);
    var j :| 0 <= j < |before| && before[j] == e;
    assert SignsMessage(w, events[j], m);
  }

  // ---------------------------------------------------------------- the assumptions can be met

  lemma RunSnoc(w: World, events: seq<Event>, e: Event)
    requires ValidRun(w, events)
    ensures ValidRun(w, events + [e]) <==> Enabled(w, Run(w, events), e)
    ensures Run(w, events + [e]) == Apply(w, Run(w, events), e)
  {
    hide Enabled, Apply;
    var all := events + [e];
    assert all[..|all| - 1] == events;
  }

  /** Honest runs are among those considered and reach the release: with matching keys, a document
      signed with the key's algorithm in its header can be sent, received and opened. */
  lemma HonestRun(w: World, e: Event, tagged: bool)
    requires e.SignDocument? && Created(w, e).Success?
    requires KeyPair(w.keys(e.key), w.keys(e.key))
    requires HeaderMaps.Lookup(e.protected, ALG_LABEL) == Some(Integer(w.keys(e.key).parameters.value.0.Id()))
    requires Created(w, e).value.AsBytes(tagged).Success?
    ensures
      var doc := Created(w, e).value;
      && ValidRun(w, [e, SerializeDocument(doc, tagged), Receive(doc.AsBytes(tagged).value), Open(doc, e.key)])
      && GetPayload(doc, w.hash, Some(w.keys(e.key))) == Success(e.payload)
      && Message(e.key, doc.protected, e.payload)
         in Run(w, [e, SerializeDocument(doc, tagged), Receive(doc.AsBytes(tagged).value), Open(doc, e.key)]).released
  {
    hide NewWithProtected, GetPayload, GetProtectedAndPayload, CoseSign1.AsBytes, Sign.FromBytes, KeyPair,
      HeaderMaps.FromBytes, HeaderMaps.EmptyOrSerialized, Run, ValidRun;
    var doc := Created(w, e).value;
    var bytes := doc.AsBytes(tagged).value;
    DigestLogged(w, e);
    EndToEndSigning(w.hash, e.payload, e.protected, e.unprotected, w.keys(e.key), w.keys(e.key), e.nonce, tagged);
    EmptyRun(w);
    RunSnoc(w, [], e);
    assert [] + [e] == [e];
    var s1 := Run(w, [e]);
    RunSnoc(w, [e], SerializeDocument(doc, tagged));
    var two := [e, SerializeDocument(doc, tagged)];
    assert [e] + [SerializeDocument(doc, tagged)] == two;
    RunSnoc(w, two, Receive(bytes));
    var three := [e, SerializeDocument(doc, tagged), Receive(bytes)];
    assert two + [Receive(bytes)] == three;
    RunSnoc(w, three, Open(doc, e.key));
    assert three + [Open(doc, e.key)] == [e, SerializeDocument(doc, tagged), Receive(bytes), Open(doc, e.key)];
  }

  /** What can happen next, said in terms of the events so far. Anything can be signed, any bytes can be put
      on the wire, whatever is on the wire can be received, and every document made or read can be
      serialized and opened under any key. Only a key's acceptance of a digest that no event signed under it
      is excluded. */
  predicate Possible(w: World, events: seq<Event>, next: Event) {
    match next
    case SignDocument(_, _, _, _, _) => true
    case Inject(_) => true
    case Receive(bytes) => OnWire(events, bytes)
    case SerializeDocument(doc, _) => MadeOrRead(w, events, doc)
    case Open(doc, key) =>
      && MadeOrRead(w, events, doc)
      && var d := DigestOf(w, Message(key, doc.protected, doc.payload));
      && (d.Success? && w.keys(key).verify(d.value, doc.signature) == Success(true) ==>
            DigestSignedIn(w, events, key, d.value))
  }

  /** A run can be continued by exactly the events that its history makes possible. */
  lemma WhatCanHappen(w: World, events: seq<Event>, next: Event)
    requires ValidRun(w, events)
    ensures ValidRun(w, events + [next]) <==> Possible(w, events, next)
  {
    hide DigestOf, Run, ValidRun, MadeOrRead, OnWire, DigestSignedIn, SignedIn, ReleasedIn;
    RunSnoc(w, events, next);
    var none := CoseSign1([], [], [], []);
    var nothing := Message(0, [], []);
    match next
    case Receive(bytes) =>
      StateIsHistory(w, events, bytes, none, 0, [], nothing);
    case SerializeDocument(doc, _) =>
      StateIsHistory(w, events, [], doc, 0, [], nothing);
    case Open(doc, key) =>
      var d := DigestOf(w, Message(key, doc.protected, doc.payload));
      StateIsHistory(w, events, [], doc, key, if d.Success? then d.value else [], nothing);
    case _ =>
  }

  lemma EmptyRun(w: World)
    ensures ValidRun(w, []) && Run(w, []) == INITIAL
  {
  }

  /** Signing logs the digest that opening the document checks. */
  lemma DigestLogged(w: World, e: Event)
    requires e.SignDocument? && Created(w, e).Success?
    ensures
      var doc := Created(w, e).value;
      var d := DigestOf(w, Message(e.key, doc.protected, doc.payload));
      && w.keys(e.key).parameters.Success? && doc.payload == e.payload
      && d.Success? && (e.key, d.value) in Apply(w, INITIAL, e).digests
  {
    hide StructDigest, HeaderMaps.EmptyOrSerialized;
  }

  /** There is a world with an injective hash and matching keys. */
  lemma IdealWorldExists()
    ensures exists w: World :: InjectiveHash(w.hash) && forall k :: KeyPair(w.keys(k), w.keys(k))
  {
    var hash: Hash := (d, x) => Success(x);
    var key := SigningKey(Success((ES256, Sha256)), (d, n) => Success(d), (d, s) => Success(d == s));
    var w := World(hash, k => key);
    assert InjectiveHash(w.hash) && forall k :: KeyPair(w.keys(k), w.keys(k));
  }
}
