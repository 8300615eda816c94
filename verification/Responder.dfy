/** The OCSP responder: the answers of make_ocsp_response, and their agreement with the
    index that `ca` keeps. */
module Responder {
  import opened Text
  import opened Library
  import opened Revocation
  import opened Serials
  import opened CaDatabase
  import opened Lifecycle
  import opened Revoking

  /** A certificate id: the digest algorithm, the hashes of the issuer's name and key, and
      the serial number. */
  datatype CertId = CertId(digest: int, nameHash: string, keyHash: string, serial: int)

  /** What an id takes from a CA certificate, and from the certificate it is for. */
  datatype CaCert = CaCert(name: string, key: string)
  datatype Subject = Subject(issuer: string, serial: int)

  type Hash = (int, string) -> string

  /** OCSP_cert_id_new: without a serial number the field stays an empty INTEGER, which
      has the value and the encoding of zero. */
  function CertIdNew(hash: Hash, digest: int, name: string, key: string, serial: Option<int>): CertId {
    CertId(digest, hash(digest, name), hash(digest, key), match serial case Some(n) => n case None => 0)
  }

  /** OCSP_cert_to_id: without a subject the issuer's own name, and no serial number. */
  function CertToId(hash: Hash, digest: int, subject: Option<Subject>, issuer: CaCert): CertId {
    match subject
    case Some(s) => CertIdNew(hash, digest, s.issuer, issuer.key, Some(s.serial))
    case None => CertIdNew(hash, digest, issuer.name, issuer.key, None)
  }

  /** OCSP_id_issuer_cmp(a, b) == 0 */
  predicate SameIssuer(a: CertId, b: CertId) {
    a.digest == b.digest && a.nameHash == b.nameHash && a.keyHash == b.keyHash
  }

  /** The responder's CA certificates; `known(d)`: the digest algorithm is available;
      `respMd`: the digest the responder puts into its own ids, if it was given one. */
  datatype Setup = Setup(cas: seq<CaCert>, hash: Hash, known: int -> bool, respMd: Option<int>)

  predicate Matches(setup: Setup, ca: nat, id: CertId)
    requires ca < |setup.cas|
  {
    SameIssuer(CertToId(setup.hash, id.digest, None, setup.cas[ca]), id)
  }

  datatype Status =
    | Unknown
    | Good
    | RevokedAt(time: string, reason: int, compromised: Option<string>, hold: Option<string>)

  datatype Single = Single(id: CertId, status: Status)

  datatype Response = MalformedRequest | InternalError | Answers(singles: seq<Single>)

  // ------------------------------------------- what each id is answered

  function FirstMatch(setup: Setup, id: CertId, start: nat): (r: Option<nat>)
    requires start <= |setup.cas|
    ensures r.Some? ==> r.value < |setup.cas| && Matches(setup, r.value, id)
    ensures r.None? ==> forall j: nat :: start <= j < |setup.cas| ==> !Matches(setup, j, id)
    decreases |setup.cas| - start
  {
    if start == |setup.cas| then None
    else if Matches(setup, start, id) then Some(start)
    else FirstMatch(setup, id, start + 1)
  }

  /** What one id gets: a status, no entry at all, or a failure of the whole response. */
  datatype Answer = Silent | Broken | Is(status: Status)

  /** The status a row stands for, by its type. Types other than V and R get no entry. */
  function RowAnswer(lib: Lib, row: Row): Answer {
    if row.typ == VALID then Is(Good)
    else if row.typ == REVOKED then
      var info := Unpack(lib, row.rev);
      // OCSP_basic_add1_status fails if no revocation time was unpacked
      if info.time.None? then Broken
      else Is(RevokedAt(info.time.value, info.reason, info.compromised,
                        if info.compromised.Some? then None else info.hold))
    else Silent
  }

  function AnswerTo(lib: Lib, setup: Setup, rows: seq<Row>, id: CertId): Answer {
    var found := FindSerial(rows, SerialText(id.serial));
    if FirstMatch(setup, id, 0).None? || found.None? then Is(Unknown)
    else RowAnswer(lib, rows[found.value])
  }

  function ResponseId(setup: Setup, id: CertId): CertId {
    var ca := FirstMatch(setup, id, 0);
    if ca.Some? && setup.respMd.Some? then CertToId(setup.hash, setup.respMd.value, None, setup.cas[ca.value]) else id
  }

  /** What handling one id does to the response being built. */
  datatype Effect = Fails | Nothing | Adds(single: Single)

  function EffectOf(lib: Lib, setup: Setup, rows: seq<Row>, id: CertId): Effect {
    if !setup.known(id.digest) then Fails
    else
      match AnswerTo(lib, setup, rows, id)
      case Broken => Fails
      case Silent => Nothing
      case Is(status) => Adds(Single(ResponseId(setup, id), status))
  }

  function Effects(lib: Lib, setup: Setup, rows: seq<Row>, ids: seq<CertId>): (r: seq<Effect>)
    ensures |r| == |ids|
    ensures forall i :: 0 <= i < |ids| ==> r[i] == EffectOf(lib, setup, rows, ids[i])
  {
    seq(|ids|, i requires 0 <= i < |ids| => EffectOf(lib, setup, rows, ids[i]))
  }

  /** The entries of all ids, or None if one of them fails the whole response. */
  function Gather(effects: seq<Effect>): Option<seq<Single>> {
    if effects == [] then Some([])
    else
      var n := |effects| - 1;
      var front := Gather(effects[..n]);
      if front.None? || effects[n].Fails? then None
      else if effects[n].Nothing? then front
      else Some(front.value + [effects[n].single])
  }

  /** The response to a list of ids, as far as it depends on them. */
  function Respond(lib: Lib, setup: Setup, rows: seq<Row>, ids: seq<CertId>): Response {
    if ids == [] then MalformedRequest
    else
      match Gather(Effects(lib, setup, rows, ids))
      case None => InternalError
      case Some(singles) => Answers(singles)
  }

  /** The body of the id loop: search the CAs, look up the serial, decide the status. */
  method AnswerOne(lib: Lib, setup: Setup, db: CaDb, cid: CertId) returns (r: Effect)
    requires forall i :: 0 <= i < |db.rows| ==> '\0' !in db.rows[i].rev
    ensures r == EffectOf(lib, setup, db.rows, cid)
  {
    if !setup.known(cid.digest) {
      return Fails;
    }
    var respId := cid;
    var found := false;
    var jj := 0;
    while jj < |setup.cas| && !found
      invariant 0 <= jj <= |setup.cas|
      invariant !found ==> FirstMatch(setup, cid, 0) == FirstMatch(setup, cid, jj) && respId == cid
      invariant found ==> FirstMatch(setup, cid, 0).Some? && respId == ResponseId(setup, cid)
    {
      var caId := CertToId(setup.hash, cid.digest, None, setup.cas[jj]);
      if SameIssuer(caId, cid) {
        found := true;
        if setup.respMd.Some? {
          respId := CertToId(setup.hash, setup.respMd.value, None, setup.cas[jj]);
        }
      }
      jj := jj + 1;
    }
    var inf := FindSerial(db.rows, SerialText(cid.serial));
    if !found || inf.None? {
      return Adds(Single(respId, Unknown));
    }
    var row := db.rows[inf.value];
    if row.typ == VALID {
      return Adds(Single(respId, Good));
    }
    if row.typ == REVOKED {
      var info := UnpackRevinfo(lib, row.rev);
      if info.time.None? {
        return Fails;
      }
      var hold := info.hold;
      if info.compromised.Some? { hold := None; }
      return Adds(Single(respId, RevokedAt(info.time.value, info.reason, info.compromised, hold)));
    }
    r := Nothing;
  }

  /** make_ocsp_response up to the signature. */
  method MakeOcspResponse(lib: Lib, setup: Setup, db: CaDb, ids: seq<CertId>) returns (r: Response)
    requires forall i :: 0 <= i < |db.rows| ==> '\0' !in db.rows[i].rev
    ensures r == Respond(lib, setup, db.rows, ids)
  {
    if |ids| <= 0 {
      return MalformedRequest;
    }
    ghost var effects := Effects(lib, setup, db.rows, ids);
    var singles: seq<Single> := [];
    for i := 0 to |ids|
      invariant Gather(effects[..i]) == Some(singles)
    {
      var e := AnswerOne(lib, setup, db, ids[i]);
      assert effects[..i + 1][..i] == effects[..i] && effects[i] == e;
      if e.Fails? {
        GatherFails(effects, i);
        return InternalError;
      }
      if e.Adds? {
        singles := singles + [e.single];
      }
    }
    assert effects[..|ids|] == effects;
    r := Answers(singles);
  }

  /** One failing id fails the response, whatever follows it. */
  lemma {:induction false} GatherFails(effects: seq<Effect>, i: nat)
    requires i < |effects| && effects[i].Fails?
    ensures Gather(effects) == None
  {
    var n := |effects| - 1;
    if i < n { GatherFails(effects[..n], i); }
  }

  // ---------------------------------------------- agreement with the index

  predicate UnderCa(setup: Setup, id: CertId) {
    exists j: nat :: j < |setup.cas| && Matches(setup, j, id)
  }

  /** A CA matches by the hashes of its name and its key, made with the id's own digest. */
  lemma UnderCaExactlyIf(setup: Setup, id: CertId)
    ensures UnderCa(setup, id) <==>
            exists j: nat :: j < |setup.cas| && id.nameHash == setup.hash(id.digest, setup.cas[j].name)
                             && id.keyHash == setup.hash(id.digest, setup.cas[j].key)
  {
    forall j: nat | j < |setup.cas|
      ensures Matches(setup, j, id) <==>
                id.nameHash == setup.hash(id.digest, setup.cas[j].name)
                && id.keyHash == setup.hash(id.digest, setup.cas[j].key)
    {
    }
  }

  /** The first matching CA, and what the answer's id is made of then: its name and its key,
      under the responder's digest, and the serial number zero. */
  lemma {:induction false} ResponseIdIs(setup: Setup, id: CertId, j: nat)
    requires j < |setup.cas| && Matches(setup, j, id) && forall k: nat :: k < j ==> !Matches(setup, k, id)
    ensures FirstMatch(setup, id, 0) == Some(j)
    ensures ResponseId(setup, id) ==
            match setup.respMd
            case None => id
            case Some(d) => CertId(d, setup.hash(d, setup.cas[j].name), setup.hash(d, setup.cas[j].key), 0)
  {
    FirstMatchFrom(setup, id, 0, j);
  }

  lemma {:induction false} FirstMatchFrom(setup: Setup, id: CertId, start: nat, j: nat)
    requires start <= j < |setup.cas| && Matches(setup, j, id)
    requires forall k: nat :: start <= k < j ==> !Matches(setup, k, id)
    ensures FirstMatch(setup, id, start) == Some(j)
    decreases j - start
  {
    if start < j { FirstMatchFrom(setup, id, start + 1, j); }
  }

  /** What an id does to the response: it fails for a digest that is not known and for a row
      whose revocation time cannot be read, adds nothing for a type other than V and R, and
      otherwise one entry under the answer's id. */
  lemma EffectIs(lib: Lib, setup: Setup, rows: seq<Row>, id: CertId)
    ensures var e, a := EffectOf(lib, setup, rows, id), AnswerTo(lib, setup, rows, id);
            && (e == Fails <==> !setup.known(id.digest) || a == Broken)
            && (e == Nothing <==> setup.known(id.digest) && a == Silent)
            && (e.Adds? <==> setup.known(id.digest) && a.Is?)
            && (e.Adds? ==> e.single == Single(ResponseId(setup, id), a.status))
  {
  }

  /** A revoked row is answered with all that its text says; hold and compromise never meet. */
  lemma RevokedRowIs(lib: Lib, row: Row)
    requires row.typ == 'R'
    ensures var info := Unpack(lib, row.rev);
            RowAnswer(lib, row) ==
            if info.time.None? then Broken
            else Is(RevokedAt(info.time.value, info.reason, info.compromised, info.hold))
  {
  }

  /** The index has a row of this type that spells the number as the program does. */
  predicate Listed(rows: seq<Row>, serial: int, typ: char) {
    exists i :: 0 <= i < |rows| && Spells(rows[i].serial, serial) && rows[i].typ == typ
  }

  predicate Known(rows: seq<Row>, serial: int) {
    exists i :: 0 <= i < |rows| && Spells(rows[i].serial, serial)
  }

  lemma {:induction false} MatchIsUnderCa(setup: Setup, id: CertId)
    ensures FirstMatch(setup, id, 0).Some? <==> UnderCa(setup, id)
  {
  }

  /** The row that an id leads to is the only one that spells its number. */
  lemma {:induction false} OnlySpelling(rows: seq<Row>, serial: int, i: nat)
    requires SerialsUnique(rows) && i < |rows| && Spells(rows[i].serial, serial)
    ensures FindSerial(rows, SerialText(serial)) == Some(i)
  {
    SpellingFound(rows[i].serial, serial);
    OnlySerial(rows, SerialText(serial), i);
  }

  /** The answers agree with the index in both directions: good exactly for a valid row
      under a configured CA, unknown exactly without a row or without a CA, revoked
      exactly for a revoked row; every other type is passed over in silence. Rows count
      only if they spell the number in upper case, without zeros behind a sign. */
  lemma AgreesWithIndex(lib: Lib, setup: Setup, rows: seq<Row>, id: CertId)
    requires SerialsUnique(rows)
    ensures var a := AnswerTo(lib, setup, rows, id);
            && (a == Is(Good) <==> UnderCa(setup, id) && Listed(rows, id.serial, VALID))
            && (a == Is(Unknown) <==> !UnderCa(setup, id) || !Known(rows, id.serial))
            && ((a.Is? && a.status.RevokedAt?) || a == Broken <==>
                  UnderCa(setup, id) && Listed(rows, id.serial, REVOKED))
            && (a == Silent <==> UnderCa(setup, id) && Known(rows, id.serial)
                                 && !Listed(rows, id.serial, VALID) && !Listed(rows, id.serial, REVOKED))
  {
    MatchIsUnderCa(setup, id);
    var found := FindSerial(rows, SerialText(id.serial));
    if found.Some? { SpellingFound(rows[found.value].serial, id.serial); }
    forall i | 0 <= i < |rows| && Spells(rows[i].serial, id.serial)
      ensures found == Some(i)
    {
      OnlySpelling(rows, id.serial, i);
    }
  }

  /** The index has a row of this type that stands for the number, however it is spelt. */
  predicate ListedByNumber(rows: seq<Row>, serial: int, typ: char) {
    exists i :: 0 <= i < |rows| && SerialOk(rows[i].serial) && rows[i].typ == typ &&
                SerialNumber(rows[i].serial) == serial
  }

  /** A checked index whose rows can all be found, as every index is that the program has
      written from the start: then the answers are right about numbers. */
  lemma AgreesByNumber(lib: Lib, setup: Setup, rows: seq<Row>, id: CertId)
    requires SerialsUnique(rows) && AllFindable(rows) && UnderCa(setup, id)
    ensures var a := AnswerTo(lib, setup, rows, id);
            && (a == Is(Good) <==> ListedByNumber(rows, id.serial, VALID))
            && (a == Is(Unknown) <==> !HasNumber(rows, id.serial))
            && ((a.Is? && a.status.RevokedAt?) || a == Broken <==> ListedByNumber(rows, id.serial, REVOKED))
  {
    AgreesWithIndex(lib, setup, rows, id);
    UnfindableIsUnknown(lib, setup, rows, id);
    forall i | 0 <= i < |rows|
      ensures Spells(rows[i].serial, id.serial) <==> SerialNumber(rows[i].serial) == id.serial
    {
      assert FindableRow(rows[i]);
      SpellsItsNumber(rows[i].serial, id.serial);
    }
  }

  /** In an index that `ca` accepts, a number under a configured CA is answered unknown
      exactly if no findable row stands for it: a row that cannot be found is passed over. */
  lemma {:induction false} UnfindableIsUnknown(lib: Lib, setup: Setup, rows: seq<Row>, id: CertId)
    requires AllSerialsOk(rows)
    ensures AnswerTo(lib, setup, rows, id) == Is(Unknown) <==> !UnderCa(setup, id) || !HasNumber(rows, id.serial)
  {
    MatchIsUnderCa(setup, id);
    NumberFoundExactlyIf(rows, id.serial);
    var found := FindSerial(rows, SerialText(id.serial));
    if found.Some? { RowAnswerIsKnown(lib, rows[found.value]); }
  }

  lemma RowAnswerIsKnown(lib: Lib, row: Row)
    ensures RowAnswer(lib, row) != Is(Unknown)
  {
  }

  /** The revoked row of the lower-case example is answered unknown. */
  lemma LowerCaseIsUnknown(setup: Setup, id: CertId)
    requires UnderCa(setup, id) && id.serial == 171
    ensures AnswerTo(SmallLib(), setup, [LowerCaseRow()], id) == Is(Unknown)
  {
    LowerCaseText();
    UnfindableIsUnknown(SmallLib(), setup, [LowerCaseRow()], id);
  }

  lemma {:induction false} GatherAll(effects: seq<Effect>)
    requires forall i :: 0 <= i < |effects| ==> !effects[i].Fails?
    ensures Gather(effects).Some?
    ensures var r := Gather(effects).value;
            && |r| <= |effects|
            && (|r| == |effects| <==> forall i :: 0 <= i < |effects| ==> effects[i].Adds?)
            && (|r| == |effects| ==> forall i :: 0 <= i < |effects| ==> effects[i] == Adds(r[i]))
  {
    if effects != [] {
      var n := |effects| - 1;
      GatherAll(effects[..n]);
    }
  }

  lemma {:induction false} GatheredUnlessFailing(effects: seq<Effect>)
    ensures Gather(effects).None? <==> exists i :: 0 <= i < |effects| && effects[i].Fails?
  {
    if effects != [] {
      var n := |effects| - 1;
      GatheredUnlessFailing(effects[..n]);
      assert forall i :: 0 <= i < n ==> effects[..n][i] == effects[i];
    }
  }

  /** Which response there is: none but an error for an empty request, and for one that has
      an id of an unknown digest or with a broken answer. */
  lemma RespondIs(lib: Lib, setup: Setup, rows: seq<Row>, ids: seq<CertId>)
    ensures var r := Respond(lib, setup, rows, ids);
            && (r == MalformedRequest <==> |ids| == 0)
            && (r == InternalError <==>
                  exists i :: 0 <= i < |ids| &&
                              (!setup.known(ids[i].digest) || AnswerTo(lib, setup, rows, ids[i]) == Broken))
  {
    var effects := Effects(lib, setup, rows, ids);
    GatheredUnlessFailing(effects);
    forall i | 0 <= i < |ids|
      ensures effects[i].Fails? <==> !setup.known(ids[i].digest) || AnswerTo(lib, setup, rows, ids[i]) == Broken
    {
      EffectIs(lib, setup, rows, ids[i]);
    }
    if i :| 0 <= i < |effects| && effects[i].Fails? {
      assert !setup.known(ids[i].digest) || AnswerTo(lib, setup, rows, ids[i]) == Broken;
    }
  }

  /** Every id is answered, in order, if and only if none of them names a row that is
      neither valid nor revoked; an expired certificate's id is left out. */
  lemma EveryIdAnswered(lib: Lib, setup: Setup, rows: seq<Row>, ids: seq<CertId>)
    requires ids != []
    requires forall i :: 0 <= i < |ids| ==> setup.known(ids[i].digest) && AnswerTo(lib, setup, rows, ids[i]) != Broken
    ensures var r := Respond(lib, setup, rows, ids);
            && r.Answers? && |r.singles| <= |ids|
            && (|r.singles| == |ids| <==> forall i :: 0 <= i < |ids| ==> AnswerTo(lib, setup, rows, ids[i]) != Silent)
            && (|r.singles| == |ids| ==>
                  forall i :: 0 <= i < |ids| ==>
                    && r.singles[i].id == ResponseId(setup, ids[i])
                    && Is(r.singles[i].status) == AnswerTo(lib, setup, rows, ids[i]))
  {
    var effects := Effects(lib, setup, rows, ids);
    forall i | 0 <= i < |ids|
      ensures !effects[i].Fails? && (effects[i].Adds? <==> AnswerTo(lib, setup, rows, ids[i]) != Silent)
    {
      assert effects[i] == EffectOf(lib, setup, rows, ids[i]);
    }
    GatherAll(effects);
  }

  /** An id made without a subject has the serial number zero, whatever was asked for. */
  lemma NoSubjectNoSerial(hash: Hash, digest: int, issuer: CaCert, subject: Subject)
    ensures CertToId(hash, digest, None, issuer).serial == 0
    ensures CertToId(hash, digest, None, issuer) == CertToId(hash, digest, Some(subject), issuer) <==>
            subject.serial == 0 && hash(digest, subject.issuer) == hash(digest, issuer.name)
  {
  }

  /** An answer's id is the id asked for if and only if no CA matches, the responder has
      no digest of its own, or that digest is the id's and the serial number is zero. */
  lemma AnswerNamesQuestion(setup: Setup, id: CertId)
    ensures ResponseId(setup, id) == id <==>
            || !UnderCa(setup, id)
            || setup.respMd.None?
            || (setup.respMd == Some(id.digest) && id.serial == 0)
  {
    MatchIsUnderCa(setup, id);
  }

  /** A question that its answer does not name. */
  lemma QuestionNotNamed()
    ensures var setup := Setup([CaCert("n", "k")], (d, s) => s, d => true, Some(1));
            var id := CertId(1, "n", "k", 5);
            UnderCa(setup, id) && ResponseId(setup, id) != id
  {
    var setup := Setup([CaCert("n", "k")], (d, s) => s, d => true, Some(1));
    var id := CertId(1, "n", "k", 5);
    assert Matches(setup, 0, id);
    AnswerNamesQuestion(setup, id);
  }

  /** With a digest of the responder's own, two ids under one CA are answered under the
      same id; without one, never. */
  lemma {:induction false} RehashedIdsAreAlike(setup: Setup, a: CertId, b: CertId)
    requires UnderCa(setup, a) && UnderCa(setup, b) && FirstMatch(setup, a, 0) == FirstMatch(setup, b, 0) && a != b
    ensures ResponseId(setup, a) == ResponseId(setup, b) <==> setup.respMd.Some?
  {
    MatchIsUnderCa(setup, a);
    MatchIsUnderCa(setup, b);
  }

  /** The status that a revocation is meant to produce. */
  function IntendedStatus(revType: RevType, arg: string, now: string): Status {
    RevokedAt(now, IntendedReason(revType, arg),
              if revType == RevKeyCompromise || revType == RevCaCompromise then Some(arg) else None,
              if revType == RevHold then Some(arg) else None)
  }

  lemma RevokedRowAnswer(lib: Lib, row: Row, revType: RevType, arg: string, now: string)
    requires ',' !in now && row.typ == REVOKED && RevocationText(lib, revType, arg, now) == Some(row.rev)
    ensures RowAnswer(lib, row) == if lib.utcOk(now) then Is(IntendedStatus(revType, arg, now)) else Broken
  {
    RoundTrip(lib, revType, arg, now);
  }

  /** do_revoke succeeds for this action. */
  predicate Revokes(lib: Lib, m: Ca, act: Action) {
    act.RevokeCert? && act.revType != RevValid && Revoke(lib, m.db, act.cert, act.revType, act.arg, act.now).1
  }

  /** A row that is revoked on file is found there, unchanged, after any run. */
  lemma {:induction false} RevokedRowStays(lib: Lib, base: seq<Row>, saved: Ca, later: seq<Action>, key: string)
    requires !lib.TimeOk("") && CaInv(base, saved) && PlainActions(later)
    requires FindSerial(base, key).Some? && base[FindSerial(base, key).value].typ == REVOKED
    ensures var n := Run(lib, saved, later);
            ReadIndex(n.file).Some? ==>
              var found := FindSerial(FileRows(n), key);
              found.Some? && FileRows(n)[found.value] == base[FindSerial(base, key).value]
  {
    RunKeepsInv(lib, base, saved, later);
    RevocationIsFinal(lib, base, saved, later, FindSerial(base, key).value);
    var n := Run(lib, saved, later);
    if ReadIndex(n.file).Some? { StaysFound(base, FileRows(n), key); }
  }

  /** Once do_revoke has succeeded, its row is found by the serial of the certificate, and a
      saved index is a starting point of further runs. */
  lemma {:induction false} RevokedAndSaved(
      lib: Lib, db: Db, cert: Cert, revType: RevType, arg: string, now: string, after: Db)
    requires !lib.TimeOk("") && Inv(db) && PlainTexts(revType, arg, now) && GoodCert(cert) && revType != RevValid
    requires Revoke(lib, db, cert, revType, arg, now) == (after, true)
    ensures CaInv(after.rows, Ca(SaveText(after.rows), after))
    ensures var found := FindSerial(after.rows, SerialText(cert.serial));
            && found.Some? && after.rows[found.value].typ == REVOKED
            && RevocationText(lib, revType, arg, now) == Some(after.rows[found.value].rev)
  {
    RevokeKeepsInv(lib, db, cert, revType, arg, now);
    RevokedIsFound(lib, db, cert, revType, arg, now);
    EvolvesItself(after.rows);
    SavedKeepsInv(after.rows, after);
  }

  lemma RevokeAndSave(lib: Lib, m: Ca, act: Action, after: Db)
    requires act.RevokeCert? && after == Revoke(lib, m.db, act.cert, act.revType, act.arg, act.now).0
    ensures Step(lib, Step(lib, m, act), Save) == Ca(SaveText(after.rows), after)
  {
  }

  lemma {:induction false} RevokedThenLater(
      lib: Lib, db: Db, cert: Cert, revType: RevType, arg: string, now: string,
      saved: Ca, later: seq<Action>, file: string)
    requires !lib.TimeOk("") && Inv(db) && PlainTexts(revType, arg, now) && GoodCert(cert) && revType != RevValid
    requires Revoke(lib, db, cert, revType, arg, now) == (saved.db, true) && saved.file == SaveText(saved.db.rows)
    requires PlainActions(later) && file == Run(lib, saved, later).file
    ensures ReadIndex(file).Some? ==>
              var rows := ReadIndex(file).value;
              var found := FindSerial(rows, SerialText(cert.serial));
              && found.Some? && rows[found.value].typ == REVOKED
              && RevocationText(lib, revType, arg, now) == Some(rows[found.value].rev)
  {
    RevokedAndSaved(lib, db, cert, revType, arg, now, saved.db);
    RevokedRowStays(lib, saved.db.rows, saved, later, SerialText(cert.serial));
  }

  /** A saved revocation is found, unchanged, in every later version of the file that can
      be read at all. */
  lemma {:induction false} RevokedStaysOnFile(lib: Lib, m: Ca, act: Action, later: seq<Action>)
    requires !lib.TimeOk("") && Inv(m.db) && Revokes(lib, m, act) && PlainAction(act) && PlainActions(later)
    ensures var n := Run(lib, Step(lib, Step(lib, m, act), Save), later);
            ReadIndex(n.file).Some? ==>
              var rows := FileRows(n);
              var found := FindSerial(rows, SerialText(act.cert.serial));
              && found.Some? && rows[found.value].typ == REVOKED
              && RevocationText(lib, act.revType, act.arg, act.now) == Some(rows[found.value].rev)
  {
    var after := Revoke(lib, m.db, act.cert, act.revType, act.arg, act.now).0;
    var saved := Ca(SaveText(after.rows), after);
    RevokeAndSave(lib, m, act, after);
    RevokedThenLater(lib, m.db, act.cert, act.revType, act.arg, act.now, saved, later, Run(lib, saved, later).file);
  }

  /** Once do_revoke succeeded and the index was saved, then after any further run of the
      program the answer for that serial under a configured CA is revoked, with the time
      and the reason that were given, if the time is a UTCTime; otherwise the responder
      cannot answer. */
  lemma {:induction false} RevokedIsAnsweredRevoked(
      lib: Lib, m: Ca, act: Action, later: seq<Action>, setup: Setup, id: CertId)
    requires !lib.TimeOk("") && Inv(m.db) && Revokes(lib, m, act) && PlainAction(act) && PlainActions(later)
    requires UnderCa(setup, id) && id.serial == act.cert.serial
    ensures var n := Run(lib, Step(lib, Step(lib, m, act), Save), later);
            ReadIndex(n.file).Some? ==>
              AnswerTo(lib, setup, FileRows(n), id) ==
              if lib.utcOk(act.now) then Is(IntendedStatus(act.revType, act.arg, act.now)) else Broken
  {
    RevokedStaysOnFile(lib, m, act, later);
    MatchIsUnderCa(setup, id);
    var n := Run(lib, Step(lib, Step(lib, m, act), Save), later);
    if ReadIndex(n.file).Some? {
      var rows := FileRows(n);
      var i := FindSerial(rows, SerialText(id.serial)).value;
      RevokedRowAnswer(lib, rows[i], act.revType, act.arg, act.now);
    }
  }

  // --------------------------------------------------- in the whole response

  /** How many entries stand before that of id `i`. */
  function EntryOf(effects: seq<Effect>, i: nat): nat
    requires i <= |effects|
  {
    if i == 0 then 0 else EntryOf(effects, i - 1) + (if effects[i - 1].Adds? then 1 else 0)
  }

  lemma {:induction false} EntryOfFront(effects: seq<Effect>, n: nat, i: nat)
    requires i <= n <= |effects|
    ensures EntryOf(effects[..n], i) == EntryOf(effects, i)
  {
    if i > 0 { EntryOfFront(effects, n, i - 1); }
  }

  lemma {:induction false} GatherLength(effects: seq<Effect>)
    requires Gather(effects).Some?
    ensures |Gather(effects).value| == EntryOf(effects, |effects|)
  {
    if effects != [] {
      var n := |effects| - 1;
      GatherLength(effects[..n]);
      EntryOfFront(effects, n, n);
    }
  }

  /** The entry of an id stands behind those of the ids before it. */
  lemma {:induction false} GatherAt(effects: seq<Effect>, i: nat)
    requires Gather(effects).Some? && i < |effects| && effects[i].Adds?
    ensures EntryOf(effects, i) < |Gather(effects).value|
    ensures Gather(effects).value[EntryOf(effects, i)] == effects[i].single
  {
    var n := |effects| - 1;
    EntryOfFront(effects, n, i);
    if i < n {
      GatherAt(effects[..n], i);
    } else {
      GatherLength(effects[..n]);
    }
  }

  /** Every response to a request that asks for id `k`: none but an error if the id's
      answer is broken; otherwise, if there is a response, the id's own entry is in it, in
      its place. */
  lemma {:induction false} EntryInResponse(lib: Lib, setup: Setup, rows: seq<Row>, ids: seq<CertId>, k: nat)
    requires k < |ids| && AnswerTo(lib, setup, rows, ids[k]) != Silent
    ensures var r, a := Respond(lib, setup, rows, ids), AnswerTo(lib, setup, rows, ids[k]);
            && r != MalformedRequest && (a == Broken ==> r == InternalError)
            && (r.Answers? ==>
                  var j := EntryOf(Effects(lib, setup, rows, ids), k);
                  && a.Is? && j < |r.singles| && j <= k
                  && r.singles[j] == Single(ResponseId(setup, ids[k]), a.status))
  {
    var effects := Effects(lib, setup, rows, ids);
    assert effects[k] == EffectOf(lib, setup, rows, ids[k]);
    if effects[k].Fails? { GatherFails(effects, k); }
    if Gather(effects).Some? {
      GatherAt(effects, k);
      EntriesBefore(effects, k);
    }
  }

  lemma {:induction false} EntriesBefore(effects: seq<Effect>, i: nat)
    requires i <= |effects|
    ensures EntryOf(effects, i) <= i
  {
    if i > 0 { EntriesBefore(effects, i - 1); }
  }

  /** From revocation to the wire: every response, to any request that asks for the serial
      under a configured CA, holds the entry of that id, and it says revoked with the time
      and the reason that were given; if the time was not a UTCTime, there is no response. */
  lemma {:induction false} EveryResponseSaysRevoked(lib: Lib, m: Ca, act: Action, later: seq<Action>,
                                 setup: Setup, ids: seq<CertId>, k: nat)
    requires !lib.TimeOk("") && Inv(m.db) && Revokes(lib, m, act) && PlainAction(act) && PlainActions(later)
    requires k < |ids| && UnderCa(setup, ids[k]) && ids[k].serial == act.cert.serial
    ensures var n := Run(lib, Step(lib, Step(lib, m, act), Save), later);
            ReadIndex(n.file).Some? ==>
              var r := Respond(lib, setup, FileRows(n), ids);
              && (!lib.utcOk(act.now) ==> r == InternalError)
              && (r.Answers? ==>
                    var j := EntryOf(Effects(lib, setup, FileRows(n), ids), k);
                    && j < |r.singles|
                    && r.singles[j] == Single(ResponseId(setup, ids[k]), IntendedStatus(act.revType, act.arg, act.now)))
  {
    RevokedIsAnsweredRevoked(lib, m, act, later, setup, ids[k]);
    var n := Run(lib, Step(lib, Step(lib, m, act), Save), later);
    if ReadIndex(n.file).Some? { EntryInResponse(lib, setup, FileRows(n), ids, k); }
  }
}
