/** Issuing certificates: do_body for one request, and the issuing run of ca_main. */
module Issuing {
  import opened Text
  import opened Library
  import opened Names
  import opened Serials
  import opened CaDatabase
  import opened Lifecycle

  /** `ca` is the subject of the CA certificate; the flags are those of the command line
      and the configuration. */
  datatype Config = Config(
    policy: seq<PolicyLine>, ca: Name,
    selfsign: bool, preserve: bool, emailDn: bool, batch: bool, serialFile: bool)

  /** A request file. For one that is read and verified: its subject, whether its strings
      have legal types, whether the certificate can be built from it, the expiry date
      that is set, whether it can be signed, and the operator's answer. */
  datatype Request =
    | Unreadable
    | Unverified
    | Request(subject: Name, textsOk: bool, buildOk: bool, notAfter: string, signOk: bool, agreed: bool)

  datatype Failure = BadFile | BadText | PolicyNotMet | NotBuilt | NoOneLine | NameClash | SerialClash | NotSigned

  datatype Issued = Issued(serial: int, subject: Name, name: string, notAfter: string)

  /** -1, 0 and 1 of do_body and certify */
  datatype Outcome = Aborted(why: Failure) | Refused | Certified(cert: Issued)

  // ------------------------------------------------------- one request

  /** The subject the certificate ends up with. */
  function Subject(cfg: Config, subject: Name): Name {
    var built := if cfg.preserve then subject else OwnRdns(Selected(cfg.policy, subject));
    if cfg.emailDn then built else WithoutEmail(built)
  }

  lemma WellFormedIsOrdered(name: Name)
    requires WellFormed(name)
    ensures Ordered(name)
  {
  }

  /** The subject, e-mail entries left out or not, is built of the request's entries in
      their RDNs, or in policy order with an RDN for each. */
  lemma {:induction false} SubjectIs(cfg: Config, subject: Name)
    requires Ordered(subject)
    ensures var built := if cfg.preserve then subject else OwnRdns(Selected(cfg.policy, subject));
            && SameStructure(Subject(cfg, subject), if cfg.emailDn then built else NonEmail(built))
            && (!cfg.emailDn && (!cfg.preserve || WellFormed(subject)) ==>
                  Subject(cfg, subject) == CloseUp(NonEmail(built)))
  {
    var built := if cfg.preserve then subject else OwnRdns(Selected(cfg.policy, subject));
    OwnRdnsWellFormed(Selected(cfg.policy, subject));
    WellFormedIsOrdered(OwnRdns(Selected(cfg.policy, subject)));
    StructureItself(built);
    WithoutEmailKeeps(built);
    if WellFormed(built) { WithoutEmailCloses(built); }
  }

  function RowFor(cert: Issued): Row {
    NewRow(cert.name, cert.serial, cert.notAfter)
  }

  /** What is decided before the index is looked at. */
  datatype Draft = Bad(why: Failure) | Unsigned | Draft(cert: Issued)

  function DraftOf(lib: Lib, cfg: Config, req: Request, serial: int): Draft {
    if req.Unreadable? then Bad(BadFile)
    else if req.Unverified? then Unsigned
    else if !req.textsOk then Bad(BadText)
    else if !PolicyMet(cfg.policy, req.subject, if cfg.selfsign then req.subject else cfg.ca) then Bad(PolicyNotMet)
    else if !req.buildOk then Bad(NotBuilt)
    else
      var subject := Subject(cfg, req.subject);
      match lib.oneline(subject)
      case None => Bad(NoOneLine)
      case Some(line) =>
        Draft(Issued(serial, subject, if line == "" then SerialText(serial) else line, req.notAfter))
  }

  function Outcomes(lib: Lib, cfg: Config, db: Db, req: Request, serial: int): Outcome {
    match DraftOf(lib, cfg, req, serial)
    case Bad(why) => Aborted(why)
    case Unsigned => Refused
    case Draft(cert) =>
      if db.unique && cert.name in db.nameIndex then Aborted(NameClash)
      else if FindSerial(db.rows, SerialText(serial)).Some? then Aborted(SerialClash)
      else if !cfg.batch && !req.agreed then Refused
      else if !req.signOk then Aborted(NotSigned)
      else Certified(cert)
  }

  /** The index after a request: a new row for a certificate, otherwise as before. */
  function After(db: Db, outcome: Outcome): Db {
    if outcome.Certified? && Insert(db, RowFor(outcome.cert)).Some?
    then Insert(db, RowFor(outcome.cert)).value
    else db
  }

  /** Everything that is checked before the operator is asked: the request is read and
      verified, its strings are legal, the policy is met by it (by the request itself with
      -selfsign), the certificate can be built and its subject written on one line, and
      neither this name, if names are to be unique, nor the serial is in the index. */
  predicate Admissible(lib: Lib, cfg: Config, db: Db, req: Request, serial: int) {
    && req.Request? && req.textsOk
    && PolicyMet(cfg.policy, req.subject, if cfg.selfsign then req.subject else cfg.ca)
    && req.buildOk
    && lib.oneline(Subject(cfg, req.subject)).Some?
    && (db.unique ==> NameOfRow(lib, cfg, req, serial) !in db.nameIndex)
    && (forall i :: 0 <= i < |db.rows| ==> !KeyEq(db.rows[i].serial, SerialText(serial)))
  }

  /** The name the certificate is indexed under: its serial if the subject is empty. */
  function NameOfRow(lib: Lib, cfg: Config, req: Request, serial: int): string
    requires req.Request? && lib.oneline(Subject(cfg, req.subject)).Some?
  {
    var line := lib.oneline(Subject(cfg, req.subject)).value;
    if |line| > 0 then line else SerialText(serial)
  }

  lemma {:induction false} DraftedExactlyIf(lib: Lib, cfg: Config, req: Request, serial: int)
    ensures var d := DraftOf(lib, cfg, req, serial);
            && (d.Unsigned? <==> req.Unverified?)
            && (d.Draft? <==>
                  && req.Request? && req.textsOk
                  && PolicyMet(cfg.policy, req.subject, if cfg.selfsign then req.subject else cfg.ca)
                  && req.buildOk && lib.oneline(Subject(cfg, req.subject)).Some?)
            && (d.Draft? ==>
                  d.cert == Issued(serial, Subject(cfg, req.subject), NameOfRow(lib, cfg, req, serial), req.notAfter))
  {
  }

  /** A request ends in a certificate exactly if it is admissible, the operator agrees or is
      not asked, and it can be signed; it is refused without an error exactly if it does not
      verify, or is admissible and the operator does not agree. */
  lemma {:induction false} CertifiedExactlyIf(lib: Lib, cfg: Config, db: Db, req: Request, serial: int)
    ensures var r := Outcomes(lib, cfg, db, req, serial);
            && (r.Certified? <==> Admissible(lib, cfg, db, req, serial) && (cfg.batch || req.agreed) && req.signOk)
            && (r == Refused <==>
                  req.Unverified? || (Admissible(lib, cfg, db, req, serial) && !cfg.batch && !req.agreed))
            && (r.Certified? ==>
                  r.cert == Issued(serial, Subject(cfg, req.subject), NameOfRow(lib, cfg, req, serial), req.notAfter))
  {
    DraftedExactlyIf(lib, cfg, req, serial);
    AdmissibleIs(lib, cfg, db, req, serial);
    OutcomeOfDraft(lib, cfg, db, req, serial, Admissible(lib, cfg, db, req, serial));
  }

  lemma {:induction false} AdmissibleIs(lib: Lib, cfg: Config, db: Db, req: Request, serial: int)
    ensures Admissible(lib, cfg, db, req, serial) <==>
            var draft := DraftOf(lib, cfg, req, serial);
            && draft.Draft? && !(db.unique && draft.cert.name in db.nameIndex)
            && FindSerial(db.rows, SerialText(serial)).None?
  {
    DraftedExactlyIf(lib, cfg, req, serial);
    NotStored(db.rows, SerialText(serial));
  }

  lemma NotStored(rows: seq<Row>, key: string)
    ensures FindSerial(rows, key).None? <==> forall i :: 0 <= i < |rows| ==> !KeyEq(rows[i].serial, key)
  {
  }

  lemma {:induction false} OutcomeOfDraft(lib: Lib, cfg: Config, db: Db, req: Request, serial: int, admissible: bool)
    requires var draft := DraftOf(lib, cfg, req, serial);
             admissible <==> draft.Draft? && !(db.unique && draft.cert.name in db.nameIndex)
                             && FindSerial(db.rows, SerialText(serial)).None?
    ensures var r, draft := Outcomes(lib, cfg, db, req, serial), DraftOf(lib, cfg, req, serial);
            && (r.Certified? <==> admissible && (cfg.batch || req.agreed) && req.signOk)
            && (r == Refused <==> draft.Unsigned? || (admissible && !cfg.batch && !req.agreed))
            && (r.Certified? ==> draft == Draft(r.cert))
  {
  }

  /** The first check that fails aborts the run. */
  lemma {:induction false} AbortedExactlyIf(lib: Lib, cfg: Config, db: Db, req: Request, serial: int)
    ensures var r := Outcomes(lib, cfg, db, req, serial);
            var policy := req.Request? && req.textsOk &&
                          PolicyMet(cfg.policy, req.subject, if cfg.selfsign then req.subject else cfg.ca);
            var named := policy && req.buildOk && lib.oneline(Subject(cfg, req.subject)).Some?;
            && (r == Aborted(BadFile) <==> req.Unreadable?)
            && (r == Aborted(BadText) <==> req.Request? && !req.textsOk)
            && (r == Aborted(PolicyNotMet) <==> req.Request? && req.textsOk && !policy)
            && (r == Aborted(NotBuilt) <==> policy && !req.buildOk)
            && (r == Aborted(NoOneLine) <==> policy && req.buildOk && !named)
            && (r == Aborted(NameClash) <==>
                  named && db.unique && NameOfRow(lib, cfg, req, serial) in db.nameIndex)
            && (r == Aborted(SerialClash) <==>
                  && named && !(db.unique && NameOfRow(lib, cfg, req, serial) in db.nameIndex)
                  && exists i :: 0 <= i < |db.rows| && KeyEq(db.rows[i].serial, SerialText(serial)))
            && (r == Aborted(NotSigned) <==>
                  Admissible(lib, cfg, db, req, serial) && (cfg.batch || req.agreed) && !req.signOk)
  {
  }

  /** A certificate adds one valid row, with its name indexed if names are to be unique;
      no other outcome changes the index. */
  lemma {:induction false} AfterIs(lib: Lib, cfg: Config, db: Db, req: Request, serial: int)
    ensures var r := Outcomes(lib, cfg, db, req, serial);
            && (!r.Certified? ==> After(db, r) == db)
            && (r.Certified? ==>
                  After(db, r) == Db(
                    db.unique,
                    db.rows + [Row('V', "", r.cert.notAfter, "", SerialText(serial), "unknown", r.cert.name)],
                    if db.unique then db.nameIndex[r.cert.name := |db.rows|] else db.nameIndex))
  {
    CertifiedExactlyIf(lib, cfg, db, req, serial);
  }

  /** certify and the first part of do_body: check the request and build its subject. */
  method DraftCertificate(lib: Lib, cfg: Config, req: Request, serial: int) returns (r: Draft)
    ensures r == DraftOf(lib, cfg, req, serial)
  {
    if req.Unreadable? {
      return Bad(BadFile);
    }
    if req.Unverified? {
      return Unsigned;
    }
    if !req.textsOk {
      return Bad(BadText);
    }
    var caName := cfg.ca;
    if cfg.selfsign { caName := req.subject; }
    var built := BuildSubject(cfg.policy, req.subject, caName);
    if built.None? {
      return Bad(PolicyNotMet);
    }
    var subject := built.value;
    if cfg.preserve { subject := req.subject; }
    if !req.buildOk {
      return Bad(NotBuilt);
    }
    if !cfg.emailDn {
      subject := RemoveEmail(subject);
    }
    var line := lib.oneline(subject);
    if line.None? {
      return Bad(NoOneLine);
    }
    var name := line.value;
    if name == [] { name := SerialText(serial); }
    r := Draft(Issued(serial, subject, name, req.notAfter));
  }

  /** do_body from the clash checks on: ask the operator, sign, insert the row. */
  method Certify(lib: Lib, cfg: Config, db: CaDb, req: Request, serial: int) returns (r: Outcome)
    modifies db
    ensures r == Outcomes(lib, cfg, old(db.State()), req, serial)
    ensures db.State() == After(old(db.State()), r)
    ensures r.Certified? ==> Insert(old(db.State()), RowFor(r.cert)).Some?
  {
    var draft := DraftCertificate(lib, cfg, req, serial);
    match draft {
      case Bad(why) => return Aborted(why);
      case Unsigned => return Refused;
      case Draft(cert) =>
        if db.unique && cert.name in db.nameIndex {
          return Aborted(NameClash);
        }
        var clash := FindSerial(db.rows, SerialText(serial));
        if clash.Some? {
          return Aborted(SerialClash);
        }
        if !cfg.batch && !req.agreed {
          return Refused;
        }
        if !req.signOk {
          return Aborted(NotSigned);
        }
        r := Certified(cert);
        assert cert.serial == serial;
        var ok := db.TxtDbInsert(NewRow(cert.name, cert.serial, cert.notAfter));
        assert ok;  // both clashes have been ruled out
    }
  }

  // ------------------------------------------------------------ the run

  datatype Progress = Progress(failure: Option<Failure>, db: Db, serial: int, certs: seq<Issued>)

  /** The requests one after the other, until one aborts. */
  function Process(lib: Lib, cfg: Config, db: Db, reqs: seq<Request>, serial: int): Progress
    decreases |reqs|
  {
    if reqs == [] then Progress(None, db, serial, [])
    else
      var outcome := Outcomes(lib, cfg, db, reqs[0], serial);
      var next := After(db, outcome);
      match outcome
      case Aborted(why) => Progress(Some(why), db, serial, [])
      case Refused => Process(lib, cfg, next, reqs[1..], serial)
      case Certified(cert) =>
        var rest := Process(lib, cfg, next, reqs[1..], serial + 1);
        Progress(rest.failure, rest.db, rest.serial, [cert] + rest.certs)
  }

  /** The requests left over, after those that gave `certs`. */
  function Then(certs: seq<Issued>, rest: Progress): Progress {
    Progress(rest.failure, rest.db, rest.serial, certs + rest.certs)
  }

  lemma {:induction false} FirstCertified(lib: Lib, cfg: Config, db: Db, reqs: seq<Request>, serial: int, cert: Issued)
    requires reqs != [] && Outcomes(lib, cfg, db, reqs[0], serial) == Certified(cert)
    ensures Process(lib, cfg, db, reqs, serial) ==
            Then([cert], Process(lib, cfg, After(db, Certified(cert)), reqs[1..], serial + 1))
  {
  }

  lemma {:induction false} FirstRefused(lib: Lib, cfg: Config, db: Db, reqs: seq<Request>, serial: int)
    requires reqs != [] && Outcomes(lib, cfg, db, reqs[0], serial) == Refused
    ensures Process(lib, cfg, db, reqs, serial) == Process(lib, cfg, After(db, Refused), reqs[1..], serial)
  {
  }

  lemma {:induction false} FirstAborted(lib: Lib, cfg: Config, db: Db, reqs: seq<Request>, serial: int, why: Failure)
    requires reqs != [] && Outcomes(lib, cfg, db, reqs[0], serial) == Aborted(why)
    ensures Process(lib, cfg, db, reqs, serial) == Progress(Some(why), After(db, Aborted(why)), serial, [])
  {
  }

  lemma ThenMore(certs: seq<Issued>, cert: Issued, rest: Progress)
    ensures Then(certs, Then([cert], rest)) == Then(certs + [cert], rest)
  {
    assert certs + ([cert] + rest.certs) == (certs + [cert]) + rest.certs;
  }

  lemma ThenNone(rest: Progress)
    ensures Then([], rest) == rest
  {
    assert [] + rest.certs == rest.certs;
  }

  /** One turn of the loop does not change how the run as a whole ends. */
  lemma {:induction false} Turn(
      lib: Lib, cfg: Config, db: Db, reqs: seq<Request>, i: nat, serial: int, certs: seq<Issued>)
    requires i < |reqs|
    ensures var whole, outcome := Then(certs, Process(lib, cfg, db, reqs[i..], serial)),
                                  Outcomes(lib, cfg, db, reqs[i], serial);
            var next := After(db, outcome);
            match outcome
            case Aborted(why) => whole == Progress(Some(why), next, serial, certs)
            case Refused => whole == Then(certs, Process(lib, cfg, next, reqs[i + 1..], serial))
            case Certified(cert) => whole == Then(certs + [cert], Process(lib, cfg, next, reqs[i + 1..], serial + 1))
  {
    var left := reqs[i..];
    assert left[0] == reqs[i] && left[1..] == reqs[i + 1..];
    var outcome := Outcomes(lib, cfg, db, reqs[i], serial);
    match outcome {
      case Aborted(why) =>
        FirstAborted(lib, cfg, db, left, serial, why);
        assert certs + [] == certs;
      case Refused => FirstRefused(lib, cfg, db, left, serial);
      case Certified(cert) =>
        FirstCertified(lib, cfg, db, left, serial, cert);
        ThenMore(certs, cert, Process(lib, cfg, After(db, outcome), reqs[i + 1..], serial + 1));
    }
  }

  /** A run is cut anywhere: if the first part aborts, the rest is not looked at; otherwise
      the rest goes on with its index and serial. */
  lemma {:induction false} RunContinues(
      lib: Lib, cfg: Config, db: Db, first: seq<Request>, rest: seq<Request>, serial: int)
    ensures Process(lib, cfg, db, [], serial) == Progress(None, db, serial, [])
    ensures var p := Process(lib, cfg, db, first, serial);
            Process(lib, cfg, db, first + rest, serial) ==
            if p.failure.Some? then p else Then(p.certs, Process(lib, cfg, p.db, rest, p.serial))
    decreases |first|
  {
    if first == [] {
      assert [] + rest == rest;
      ThenNone(Process(lib, cfg, db, rest, serial));
    } else {
      var all := first + rest;
      assert all[0] == first[0] && all[1..] == first[1..] + rest;
      var outcome := Outcomes(lib, cfg, db, first[0], serial);
      var next := After(db, outcome);
      match outcome {
        case Aborted(why) =>
        case Refused =>
          FirstRefused(lib, cfg, db, first, serial);
          FirstRefused(lib, cfg, db, all, serial);
          RunContinues(lib, cfg, next, first[1..], rest, serial);
        case Certified(cert) =>
          FirstCertified(lib, cfg, db, first, serial, cert);
          FirstCertified(lib, cfg, db, all, serial, cert);
          RunContinues(lib, cfg, next, first[1..], rest, serial + 1);
          var p := Process(lib, cfg, next, first[1..], serial + 1);
          ThenThen([cert], p.certs, Process(lib, cfg, p.db, rest, p.serial));
      }
    }
  }

  lemma ThenThen(a: seq<Issued>, b: seq<Issued>, rest: Progress)
    ensures Then(a, Then(b, rest)) == Then(a + b, rest)
  {
    assert a + (b + rest.certs) == (a + b) + rest.certs;
  }

  /** What a run leaves behind: its exit code and the files that replace the old ones. */
  datatype RunResult = RunResult(exit: int, savedSerial: Option<int>, savedIndex: Option<string>)

  /** The issuing part of ca_main, with the operator's answer to the last question. */
  method IssueRun(lib: Lib, cfg: Config, db: CaDb, reqs: seq<Request>, start: int, commit: bool)
    returns (r: RunResult, certs: seq<Issued>)
    modifies db
    ensures var p := Process(lib, cfg, old(db.State()), reqs, start);
            && db.State() == p.db
            && (p.failure.Some? ==> r == RunResult(1, None, None))
            && (p.failure.None? ==>
                  && certs == p.certs
                  && var saves := certs != [] && (cfg.batch || commit);
                     r == RunResult(0, if saves && cfg.serialFile then Some(p.serial) else None,
                                    if saves then Some(SaveText(p.db.rows)) else None))
  {
    var serial := start;
    certs := [];
    ghost var whole := Process(lib, cfg, db.State(), reqs, start);
    var i := 0;
    ThenNone(whole);
    assert reqs[0..] == reqs;
    while i < |reqs|
      invariant 0 <= i <= |reqs|
      invariant whole == Then(certs, Process(lib, cfg, db.State(), reqs[i..], serial))
    {
      Turn(lib, cfg, db.State(), reqs, i, serial, certs);
      var outcome := Certify(lib, cfg, db, reqs[i], serial);
      match outcome {
        case Aborted(why) =>
          return RunResult(1, None, None), certs;
        case Refused =>
        case Certified(cert) =>
          certs := certs + [cert];
          serial := serial + 1;
      }
      i := i + 1;
    }
    assert certs + [] == certs;
    r := RunResult(0, None, None);
    if |certs| > 0 {
      if !cfg.batch && !commit {
        return;
      }
      r := RunResult(0, if cfg.serialFile then Some(serial) else None, Some(SaveText(db.rows)));
    }
  }

  function RowsFor(certs: seq<Issued>): (r: seq<Row>)
    ensures |r| == |certs|
  {
    if certs == [] then [] else [RowFor(certs[0])] + RowsFor(certs[1..])
  }

  /** How many of the requests end in a certificate. */
  function CountCertified(lib: Lib, cfg: Config, db: Db, reqs: seq<Request>, serial: int): nat
    decreases |reqs|
  {
    if reqs == [] then 0
    else
      var outcome := Outcomes(lib, cfg, db, reqs[0], serial);
      if outcome.Certified? then 1 + CountCertified(lib, cfg, After(db, outcome), reqs[1..], serial + 1)
      else CountCertified(lib, cfg, After(db, outcome), reqs[1..], serial)
  }

  lemma CertifiedIsInserted(lib: Lib, cfg: Config, db: Db, req: Request, serial: int)
    requires Outcomes(lib, cfg, db, req, serial).Certified?
    ensures var cert := Outcomes(lib, cfg, db, req, serial).cert;
            Insert(db, RowFor(cert)).Some? && cert.serial == serial &&
            After(db, Certified(cert)).rows == db.rows + [RowFor(cert)]
  {
  }

  /** One serial and one row for each certificate, in order, and nothing else. */
  ghost predicate Accounted(db: Db, serial: int, p: Progress) {
    && p.serial == serial + |p.certs|
    && (forall i :: 0 <= i < |p.certs| ==> p.certs[i].serial == serial + i)
    && p.db.rows == db.rows + RowsFor(p.certs)
  }

  lemma AccountedFirst(db: Db, next: Db, cert: Issued, rest: Progress)
    requires next.rows == db.rows + [RowFor(cert)] && Accounted(next, cert.serial + 1, rest)
    ensures Accounted(db, cert.serial, Then([cert], rest))
  {
    var certs := [cert] + rest.certs;
    assert certs[1..] == rest.certs;
    assert db.rows + [RowFor(cert)] + RowsFor(rest.certs) == db.rows + ([RowFor(cert)] + RowsFor(rest.certs));
  }

  /** A run, aborted or not: k certificates carry the serials s, s+1, ..., the refused
      requests take none, the next serial is s+k, and the index has exactly one new row
      for each certificate, in order. */
  lemma {:induction false} IssuingRun(lib: Lib, cfg: Config, db: Db, reqs: seq<Request>, serial: int)
    ensures var p := Process(lib, cfg, db, reqs, serial);
            && p.serial == serial + |p.certs|
            && (forall i :: 0 <= i < |p.certs| ==> p.certs[i].serial == serial + i)
            && p.db.rows == db.rows + RowsFor(p.certs)
  {
    RunAccounted(lib, cfg, db, reqs, serial);
  }

  lemma {:induction false} RunAccounted(lib: Lib, cfg: Config, db: Db, reqs: seq<Request>, serial: int)
    ensures Accounted(db, serial, Process(lib, cfg, db, reqs, serial))
    decreases |reqs|
  {
    if reqs != [] {
      var outcome := Outcomes(lib, cfg, db, reqs[0], serial);
      match outcome {
        case Certified(cert) =>
          CertifiedIsInserted(lib, cfg, db, reqs[0], serial);
          FirstCertified(lib, cfg, db, reqs, serial, cert);
          var next := After(db, outcome);
          RunAccounted(lib, cfg, next, reqs[1..], serial + 1);
          AccountedFirst(db, next, cert, Process(lib, cfg, next, reqs[1..], serial + 1));
        case Refused =>
          FirstRefused(lib, cfg, db, reqs, serial);
          RunAccounted(lib, cfg, db, reqs[1..], serial);
        case Aborted(why) => FirstAborted(lib, cfg, db, reqs, serial, why);
      }
    }
  }

  /** In a run that is not aborted, k is the number of requests that were certified. */
  lemma {:induction false} OneCertificateEach(lib: Lib, cfg: Config, db: Db, reqs: seq<Request>, serial: int)
    requires Process(lib, cfg, db, reqs, serial).failure.None?
    ensures |Process(lib, cfg, db, reqs, serial).certs| == CountCertified(lib, cfg, db, reqs, serial)
    decreases |reqs|
  {
    if reqs != [] {
      var outcome := Outcomes(lib, cfg, db, reqs[0], serial);
      OneCertificateEach(lib, cfg, After(db, outcome), reqs[1..], if outcome.Certified? then serial + 1 else serial);
    }
  }

  /** Every stored serial is a well-formed number below n. */
  predicate StoredBelow(rows: seq<Row>, n: int) {
    forall i :: 0 <= i < |rows| ==>
      SerialOk(rows[i].serial) && (rows[i].serial[0] != '-' ==> HexVal(rows[i].serial) < n)
  }

  lemma {:induction false} NextIsFresh(rows: seq<Row>, n: int)
    requires n >= 0 && StoredBelow(rows, n)
    ensures FindSerial(rows, SerialText(n)).None?
  {
    forall i | 0 <= i < |rows|
      ensures !KeyEq(rows[i].serial, SerialText(n))
    {
      LargerIsFresh(rows[i].serial, n);
    }
  }

  lemma StillBelow(rows: seq<Row>, cert: Issued)
    requires cert.serial >= 0 && StoredBelow(rows, cert.serial)
    ensures StoredBelow(rows + [RowFor(cert)], cert.serial + 1)
  {
    SerialShape(cert.serial);
    var all := rows + [RowFor(cert)];
    forall i | 0 <= i < |all|
      ensures SerialOk(all[i].serial) && (all[i].serial[0] != '-' ==> HexVal(all[i].serial) < cert.serial + 1)
    {
      if i < |rows| { assert all[i] == rows[i]; }
    }
  }

  lemma StaysBelow(lib: Lib, cfg: Config, db: Db, req: Request, serial: int)
    requires serial >= 0 && StoredBelow(db.rows, serial)
    ensures var outcome := Outcomes(lib, cfg, db, req, serial);
            && outcome != Aborted(SerialClash)
            && StoredBelow(After(db, outcome).rows, if outcome.Certified? then serial + 1 else serial)
  {
    NextIsFresh(db.rows, serial);
    var outcome := Outcomes(lib, cfg, db, req, serial);
    if outcome.Certified? {
      CertifiedIsInserted(lib, cfg, db, req, serial);
      StillBelow(db.rows, outcome.cert);
    }
  }

  /** If the serial file is ahead of every stored serial, no request of the run is ever
      refused for its serial number. */
  lemma {:induction false} NoSerialClash(lib: Lib, cfg: Config, db: Db, reqs: seq<Request>, serial: int)
    requires serial >= 0 && StoredBelow(db.rows, serial)
    ensures Process(lib, cfg, db, reqs, serial).failure != Some(SerialClash)
    decreases |reqs|
  {
    if reqs != [] {
      StaysBelow(lib, cfg, db, reqs[0], serial);
      var outcome := Outcomes(lib, cfg, db, reqs[0], serial);
      NoSerialClash(lib, cfg, After(db, outcome), reqs[1..], if outcome.Certified? then serial + 1 else serial);
    }
  }

  function IssueActions(certs: seq<Issued>): seq<Action> {
    if certs == [] then []
    else [Issue(certs[0].name, certs[0].serial, certs[0].notAfter)] + IssueActions(certs[1..])
  }

  /** To the index, a run of requests is a run of Issue steps, so the laws of whole runs apply. */
  lemma {:induction false} RunOfIssues(lib: Lib, cfg: Config, file: string, db: Db, reqs: seq<Request>, serial: int)
    ensures var p := Process(lib, cfg, db, reqs, serial);
            Run(lib, Ca(file, db), IssueActions(p.certs)) == Ca(file, p.db)
    decreases |reqs|
  {
    if reqs != [] {
      var outcome := Outcomes(lib, cfg, db, reqs[0], serial);
      match outcome {
        case Certified(cert) =>
          CertifiedIsInserted(lib, cfg, db, reqs[0], serial);
          var next := After(db, outcome);
          RunOfIssues(lib, cfg, file, next, reqs[1..], serial + 1);
          FirstIssue(lib, file, db, next, cert, Process(lib, cfg, next, reqs[1..], serial + 1).certs);
        case Refused =>
          RunOfIssues(lib, cfg, file, db, reqs[1..], serial);
        case Aborted(_) =>
      }
    }
  }

  lemma {:induction false} FirstIssue(lib: Lib, file: string, db: Db, next: Db, cert: Issued, certs: seq<Issued>)
    requires Insert(db, RowFor(cert)) == Some(next)
    ensures Run(lib, Ca(file, db), IssueActions([cert] + certs)) == Run(lib, Ca(file, next), IssueActions(certs))
  {
    var all := [cert] + certs;
    assert all[1..] == certs;
    assert IssueActions(all)[1..] == IssueActions(certs);
  }
}
