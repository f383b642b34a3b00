/** Safety of COSE_Encrypt0 over whole runs. Documents are encrypted, serialized, replaced by
    arbitrary bytes, read and opened in any order, under any number of keys. The cipher is ideal: the
    runs considered are those in which it opens no combination of key, IV, additional data, ciphertext
    and tag that it has not produced before. Which payload it then yields is not assumed. */
module EncryptionRuns {
  import opened BigEndian
  import opened CborValues
  import opened Encrypt
  import HeaderMaps
  import opened Wrappers

  /** One encryption, as the log of the ideal cipher records it. */
  datatype Sealed = Sealed(
    cipher: EncryptionAlgorithm,
    key: seq<byte>,
    iv: seq<byte>,
    aad: seq<byte>,
    ciphertext: seq<byte>,
    tag: seq<byte>,
    payload: seq<byte>)

  datatype State = State(wire: set<seq<byte>>, documents: set<CoseEncrypt0>, log: set<Sealed>)

  datatype Event =
    | EncryptDocument(payload: seq<byte>, key: seq<byte>, seed: nat)
    | SerializeDocument(doc: CoseEncrypt0, tagged: bool)
    | Inject(bytes: seq<byte>)
    | Receive(bytes: seq<byte>)
    | Open(doc: CoseEncrypt0, key: seq<byte>)

  const INITIAL := State({}, {}, {})

  function Created(c: Aead, e: Event): Result<CoseEncrypt0>
    requires e.EncryptDocument?
  {
    NewSpec(c, e.payload, Gcm, e.key, e.seed)
  }

  /** The encryption behind a created document. */
  function SealedBy(c: Aead, e: Event): Sealed
    requires e.EncryptDocument? && Created(c, e).Success?
  {
    var alg := Gcm.CoseAlg(e.key).value;
    var iv := Fill(c.entropy(e.seed).value, 12);
    var aad := NewEncrypt0(Created(c, e).value.protected).AsBytes().value;
    var (ciphertext, tag) := c.encrypt(alg.Cipher(), e.key, iv, aad, e.payload).value;
    Sealed(alg.Cipher(), e.key, iv, aad, ciphertext, Fill(tag, alg.TagSize()), e.payload)
  }

  /** The answer of the cipher to a call. */
  function CipherAnswer(c: Aead, call: Call, key: seq<byte>): Option<seq<byte>> {
    c.decrypt(call.alg.Cipher(), key, call.iv, call.aad, call.ciphertext, call.tag)
  }

  /** The recorded encryption produced what the call hands to the cipher; the payload is left open. */
  predicate Produced(x: Sealed, call: Call, key: seq<byte>) {
    && x.cipher == call.alg.Cipher() && x.key == key && x.iv == call.iv && x.aad == call.aad
    && x.ciphertext == call.ciphertext && x.tag == call.tag
  }

  /** Whether the event can happen: serialized documents and received bytes exist, and the cipher
      opens what a document holds only if it produced it before. Nothing is assumed of what `decrypt`
      does with the cipher's answer. */
  predicate Enabled(c: Aead, s: State, e: Event) {
    match e
    case SerializeDocument(doc, _) => doc in s.documents
    case Receive(bytes) => bytes in s.wire
    case Open(doc, key) =>
      && doc in s.documents
      && (Prepare(doc).Success? && CipherAnswer(c, Prepare(doc).value, key).Some? ==>
            exists x :: x in s.log && Produced(x, Prepare(doc).value, key))
    case _ => true
  }

  function Apply(c: Aead, s: State, e: Event): State {
    match e
    case EncryptDocument(_, _, _) =>
      if Created(c, e).Success? then
        s.(documents := s.documents + {Created(c, e).value}, log := s.log + {SealedBy(c, e)})
      else s
    case SerializeDocument(doc, tagged) =>
      (match doc.AsBytes(tagged)
       case Success(bytes) => s.(wire := s.wire + {bytes})
       case _ => s)
    case Inject(bytes) => s.(wire := s.wire + {bytes})
    case Receive(bytes) =>
      (match Encrypt.FromBytes(bytes)
       case Success(doc) => s.(documents := s.documents + {doc})
       case _ => s)
    case Open(_, _) => s
  }

  function Run(c: Aead, events: seq<Event>): State {
    if events == [] then INITIAL else Apply(c, Run(c, events[..|events| - 1]), events[|events| - 1])
  }

  predicate ValidRun(c: Aead, events: seq<Event>) {
    events != [] ==>
      var front := events[..|events| - 1];
      ValidRun(c, front) && Enabled(c, Run(c, front), events[|events| - 1])
  }

  predicate Seals(c: Aead, e: Event, x: Sealed) {
    e.EncryptDocument? && Created(c, e).Success? && SealedBy(c, e) == x
  }

  predicate PutsOnWire(e: Event, bytes: seq<byte>) {
    || e == Inject(bytes)
    || (e.SerializeDocument? && e.doc.AsBytes(e.tagged) == Success(bytes))
  }

  predicate MakesDocument(c: Aead, e: Event, doc: CoseEncrypt0) {
    || (e.EncryptDocument? && Created(c, e) == Success(doc))
    || (e.Receive? && Encrypt.FromBytes(e.bytes) == Success(doc))
  }

  predicate OnWire(events: seq<Event>, bytes: seq<byte>) {
    exists e :: e in events && PutsOnWire(e, bytes)
  }

  predicate MadeOrRead(c: Aead, events: seq<Event>, doc: CoseEncrypt0) {
    exists e :: e in events && MakesDocument(c, e, doc)
  }

  predicate SealedIn(c: Aead, events: seq<Event>, x: Sealed) {
    exists e :: e in events && Seals(c, e, x)
  }

  /** The state is the history: what is on the wire, which documents exist and what the log of the cipher
      records is exactly what the events so far put there. */
  lemma {:induction false} StateIsHistory(c: Aead, events: seq<Event>, bytes: seq<byte>, doc: CoseEncrypt0, x: Sealed)
    ensures bytes in Run(c, events).wire <==> OnWire(events, bytes)
    ensures doc in Run(c, events).documents <==> MadeOrRead(c, events, doc)
    ensures x in Run(c, events).log <==> SealedIn(c, events, x)
  {
    hide Apply, PutsOnWire, MakesDocument, Seals;
    if events != [] {
      var front, last := events[..|events| - 1], events[|events| - 1];
      StateIsHistory(c, front, bytes, doc, x);
      StepEffects(c, Run(c, front), last, bytes, doc, x);
      assert events == front + [last];
    }
  }

  lemma StepEffects(c: Aead, s: State, e: Event, bytes: seq<byte>, doc: CoseEncrypt0, x: Sealed)
    ensures bytes in Apply(c, s, e).wire <==> bytes in s.wire || PutsOnWire(e, bytes)
    ensures doc in Apply(c, s, e).documents <==> doc in s.documents || MakesDocument(c, e, doc)
    ensures x in Apply(c, s, e).log <==> x in s.log || Seals(c, e, x)
  {
    hide NewSpec, SealedBy, Encrypt.FromBytes, CoseEncrypt0.AsBytes;
  }

  /** What an opened document has in common with the document that was created: the decoded
      protected header, the IV and the whole ciphertext. */
  predicate SameSealedContent(doc: CoseEncrypt0, original: CoseEncrypt0) {
    && HeaderMaps.FromBytes(doc.protected).Success?
    && HeaderMaps.FromBytes(doc.protected) == HeaderMaps.FromBytes(original.protected)
    && HeaderMaps.Lookup(doc.unprotected, IV_LABEL) == HeaderMaps.Lookup(original.unprotected, IV_LABEL)
    && doc.ciphertext == original.ciphertext
  }

  predicate Encrypts(c: Aead, e: Event, doc: CoseEncrypt0, key: seq<byte>, payload: seq<byte>) {
    && e.EncryptDocument? && e.key == key && e.payload == payload
    && Created(c, e).Success?
    && SameSealedContent(doc, Created(c, e).value)
  }

  lemma CreatedMeans(c: Aead, e: Event)
    requires e.EncryptDocument? && Created(c, e).Success?
    ensures
      var alg := Gcm.CoseAlg(e.key);
      && alg.Some? && c.entropy(e.seed).Success?
      && var x := SealedBy(c, e);
      && x.cipher == alg.value.Cipher() && x.key == e.key
      && var sealed := c.encrypt(x.cipher, x.key, x.iv, x.aad, e.payload);
      && sealed.Some? && x.ciphertext == sealed.value.0 && x.tag == Fill(sealed.value.1, 16)
      && var doc := Created(c, e).value;
      && NewEncrypt0(doc.protected).AsBytes() == Success(x.aad)
      && HeaderMaps.Lookup(doc.unprotected, IV_LABEL) == Some(Bytes(x.iv))
      && doc.ciphertext == x.ciphertext + x.tag
  {
    hide HeaderMaps.EmptyOrSerialized, EncStructure.AsBytes, NewSpec, Fill, NewEncrypt0;
    CreatedParts(c, e.payload, e.key, e.seed);
  }

  /** Whatever is released is the cipher's answer. */
  lemma ReleasedIsAnswer(doc: CoseEncrypt0, c: Aead, key: seq<byte>)
    requires Decrypt(doc, c, key).Success?
    ensures Prepare(doc).Success?
    ensures CipherAnswer(c, Prepare(doc).value, key) == Some(Decrypt(doc, c, key).value.2)
  {
    hide Prepare;
  }

  /** The inverse law of the cipher gives the payload. */
  lemma SameCallSamePayload(c: Aead, call: Call, key: seq<byte>, e: Event)
    requires AeadCorrect(c)
    requires e.EncryptDocument? && Created(c, e).Success?
    requires Produced(SealedBy(c, e), call, key)
    ensures CipherAnswer(c, call, key) == Some(e.payload)
  {
    hide NewSpec, EncStructure.AsBytes, Ascii;
    CreatedMeans(c, e);
    var alg := Gcm.CoseAlg(e.key).value;
    var x := SealedBy(c, e);
    assert c.decrypt(alg.Cipher(), e.key, x.iv, x.aad, x.ciphertext, x.tag) == Some(e.payload);
  }

  /** Equal calls come from equal headers, even though `decrypt` truncates the algorithm value and
      re-encodes the header: the additional data carries the value in full. */
  lemma SameCallSameContent(c: Aead, doc: CoseEncrypt0, key: seq<byte>, e: Event)
    requires Prepare(doc).Success?
    requires e.EncryptDocument? && Created(c, e).Success?
    requires Produced(SealedBy(c, e), Prepare(doc).value, key)
    ensures e.key == key && SameSealedContent(doc, Created(c, e).value)
  {
    hide Prepare, HeaderMaps.FromBytes, HeaderMaps.EmptyOrSerialized, EncStructure.AsBytes, NewSpec, SealedBy,
      HeaderMaps.Lookup;
    var call := Prepare(doc).value;
    var original := Created(c, e).value;
    PreparedMeans(doc);
    CreatedMeans(c, e);
    EncStructureInjective(
      NewEncrypt0(HeaderMaps.EmptyOrSerialized(call.protected).value), NewEncrypt0(original.protected));
    HeaderMaps.HeaderRoundTrip(call.protected);
  }

  lemma PreparedMeans(doc: CoseEncrypt0)
    requires Prepare(doc).Success?
    ensures
      var call := Prepare(doc).value;
      && HeaderMaps.FromBytes(doc.protected) == Success(call.protected) && call.protected != []
      && HeaderMaps.Lookup(doc.unprotected, IV_LABEL) == Some(Bytes(call.iv))
      && doc.ciphertext == call.ciphertext + call.tag
      && HeaderMaps.EmptyOrSerialized(call.protected).Success?
      && NewEncrypt0(HeaderMaps.EmptyOrSerialized(call.protected).value).AsBytes() == Success(call.aad)
  {
    hide HeaderMaps.FromBytes, HeaderMaps.EmptyOrSerialized, EncStructure.AsBytes, AsI8;
  }

  lemma {:induction false} PrefixOfRun(c: Aead, events: seq<Event>, n: nat)
    requires n <= |events| && ValidRun(c, events)
    ensures ValidRun(c, events[..n])
  {
    if n == |events| {
      assert events[..n] == events;
    } else {
      var front := events[..|events| - 1];
      PrefixOfRun(c, front, n);
      assert front[..n] == events[..n];
    }
  }

  lemma LastEnabled(c: Aead, events: seq<Event>)
    requires events != [] && ValidRun(c, events)
    ensures Enabled(c, Run(c, events[..|events| - 1]), events[|events| - 1])
  {
    hide Enabled, Run;
  }

  /** Run safety. Whenever a document is opened under a key in a run, an earlier step of the run
      encrypted that payload under that key, and the document has the header, IV and ciphertext that
      were written then. */
  lemma RunSafety(c: Aead, events: seq<Event>, i: nat)
    requires AeadCorrect(c) && ValidRun(c, events)
    requires i < |events| && events[i].Open?
    requires Decrypt(events[i].doc, c, events[i].key).Success?
    ensures
      var Open(doc, key) := events[i];
      exists j :: 0 <= j < i && Encrypts(c, events[j], doc, key, Decrypt(doc, c, key).value.2)
  {
    hide Apply, Run, Prepare, Decrypt, AeadCorrect, NewSpec, SealedBy, Produced, SameSealedContent, CipherAnswer;
    var Open(doc, key) := events[i];
    var before := events[..i];
    PrefixOfRun(c, events, i + 1);
    assert events[..i + 1][..i] == before;
    ReleasedIsAnswer(doc, c, key);
    LastEnabled(c, events[..i + 1]);
    var x :| x in Run(c, before).log && Produced(x, Prepare(doc).value, key);
    StateIsHistory(c, before, [], doc, x);
    var e :| e in before && Seals(c, e, x);
    var j :| 0 <= j < |before| && before[j] == e;
    SameCallSameContent(c, doc, key, before[j]);
    SameCallSamePayload(c, Prepare(doc).value, key, before[j]);
    assert Encrypts(c, events[j], doc, key, Decrypt(doc, c, key).value.2);
  }

  // ---------------------------------------------------------------- the assumptions can be met

  lemma RunSnoc(c: Aead, events: seq<Event>, e: Event)
    requires ValidRun(c, events)
    ensures ValidRun(c, events + [e]) <==> Enabled(c, Run(c, events), e)
    ensures Run(c, events + [e]) == Apply(c, Run(c, events), e)
  {
    hide Enabled, Apply;
    var all := events + [e];
    assert all[..|all| - 1] == events;
  }

  lemma EmptyRun(c: Aead)
    ensures ValidRun(c, []) && Run(c, []) == INITIAL
  {
  }

  ghost predicate ProducedIn(c: Aead, events: seq<Event>, call: Call, key: seq<byte>) {
    exists x :: SealedIn(c, events, x) && Produced(x, call, key)
  }

  /** What can happen next, said in terms of the events so far. Anything can be encrypted, any bytes can be
      put on the wire, whatever is on the wire can be received, and every document made or read can be
      serialized and opened under any key. Only the cipher's opening of something that no event produced is
      excluded. */
  ghost predicate Possible(c: Aead, events: seq<Event>, next: Event) {
    match next
    case EncryptDocument(_, _, _) => true
    case Inject(_) => true
    case Receive(bytes) => OnWire(events, bytes)
    case SerializeDocument(doc, _) => MadeOrRead(c, events, doc)
    case Open(doc, key) =>
      && MadeOrRead(c, events, doc)
      && (Prepare(doc).Success? && CipherAnswer(c, Prepare(doc).value, key).Some? ==>
            ProducedIn(c, events, Prepare(doc).value, key))
  }

  /** A run can be continued by exactly the events that its history makes possible. */
  lemma WhatCanHappen(c: Aead, events: seq<Event>, next: Event)
    requires ValidRun(c, events)
    ensures ValidRun(c, events + [next]) <==> Possible(c, events, next)
  {
    hide Prepare, CipherAnswer, Produced, Run, ValidRun, MadeOrRead, OnWire, SealedIn;
    RunSnoc(c, events, next);
    var none := CoseEncrypt0([], [], []);
    var nothing := Sealed(Aes128Gcm, [], [], [], [], [], []);
    match next
    case Receive(bytes) =>
      StateIsHistory(c, events, bytes, none, nothing);
    case SerializeDocument(doc, _) =>
      StateIsHistory(c, events, [], doc, nothing);
    case Open(doc, key) =>
      StateIsHistory(c, events, [], doc, nothing);
      forall x ensures x in Run(c, events).log <==> SealedIn(c, events, x) {
        StateIsHistory(c, events, [], doc, x);
      }
    case _ =>
  }

  /** Encrypting logs the call that opening the document makes. */
  lemma CallLogged(c: Aead, e: Event)
    requires AeadCorrect(c) && e.EncryptDocument? && Created(c, e).Success?
    ensures
      var doc := Created(c, e).value;
      && Decrypt(doc, c, e.key).Success? && Decrypt(doc, c, e.key).value.2 == e.payload
      && Prepare(doc).Success? && Produced(SealedBy(c, e), Prepare(doc).value, e.key)
  {
    hide HeaderMaps.FromBytes, HeaderMaps.EmptyOrSerialized, EncStructure.AsBytes, Ascii;
    var doc := Created(c, e).value;
    var alg := Gcm.CoseAlg(e.key).value;
    StreamEncodes(alg);
    AlgorithmSelection(alg.Value(), alg);
    var x := SealedBy(c, e);
    SplitTag(x.ciphertext, x.tag);
    assert c.decrypt(alg.Cipher(), e.key, x.iv, x.aad, x.ciphertext, x.tag) == Some(e.payload);
  }

  /** Honest runs are among those considered and reach the release. */
  lemma HonestRun(c: Aead, e: Event, tagged: bool)
    requires AeadCorrect(c) && e.EncryptDocument? && Created(c, e).Success?
    requires Created(c, e).value.AsBytes(tagged).Success?
    ensures
      var doc := Created(c, e).value;
      && ValidRun(c, [e, SerializeDocument(doc, tagged), Receive(doc.AsBytes(tagged).value), Open(doc, e.key)])
      && Decrypt(doc, c, e.key).Success? && Decrypt(doc, c, e.key).value.2 == e.payload
  {
    hide NewSpec, Decrypt, Prepare, CoseEncrypt0.AsBytes, Encrypt.FromBytes, AeadCorrect, SealedBy, Produced,
      Run, ValidRun;
    var doc := Created(c, e).value;
    var bytes := doc.AsBytes(tagged).value;
    CallLogged(c, e);
    EndToEndEncryption(c, e.payload, e.key, e.seed, tagged);
    EmptyRun(c);
    RunSnoc(c, [], e);
    assert [] + [e] == [e];
    RunSnoc(c, [e], SerializeDocument(doc, tagged));
    var two := [e, SerializeDocument(doc, tagged)];
    assert [e] + [SerializeDocument(doc, tagged)] == two;
    RunSnoc(c, two, Receive(bytes));
    var three := [e, SerializeDocument(doc, tagged), Receive(bytes)];
    assert two + [Receive(bytes)] == three;
    RunSnoc(c, three, Open(doc, e.key));
    assert three + [Open(doc, e.key)] == [e, SerializeDocument(doc, tagged), Receive(bytes), Open(doc, e.key)];
  }

  ghost predicate NeverFails(c: Aead) {
    && (forall seed: nat :: c.entropy(seed).Success?)
    && forall alg, key, iv, aad, data :: c.encrypt(alg, key, iv, aad, data).Some?
  }

  /** There is a cipher that obeys the inverse law and never fails. */
  lemma IdealCipherExists()
    ensures exists c: Aead :: AeadCorrect(c) && NeverFails(c)
  {
    var zeros: ByteStream := n => 0;
    var c := Aead(
      seed => Success(zeros),
      (alg, key, iv, aad, data) => Some((data, zeros)),
      (alg, key, iv, aad, ciphertext, tag) => Some(ciphertext));
    assert AeadCorrect(c) && NeverFails(c);
  }
}
