/** The revocation field of the index: `revtime[,reason[,extra]]`, how `ca -revoke`
    writes it and how the startup check, the CRL and the OCSP responder read it. */
module Revocation {
  import opened Text
  import opened Library

  datatype RevType = RevValid | RevNone | RevCrlReason | RevHold | RevKeyCompromise | RevCaCompromise

  const NO_REASON := -1

  const CRL_REASONS: seq<string> := [
    "unspecified", "keyCompromise", "CACompromise", "affiliationChanged", "superseded",
    "cessationOfOperation", "certificateHold", "removeFromCRL",
    "holdInstruction", "keyTime", "CAkeyTime"]

  /** OPENSSL_strcasecmp(a, b) == 0 */
  predicate CaseEq(a: string, b: string) {
    |a| == |b| && forall i :: 0 <= i < |a| ==> LowerChar(a[i]) == LowerChar(b[i])
  }

  // ------------------------------------------------------------- writing

  datatype Choice = BadArgument | Choice(reason: Option<string>, other: Option<string>)

  predicate IsReason(arg: string, i: nat) {
    i < |CRL_REASONS| && CaseEq(arg, CRL_REASONS[i])
  }

  /** The second and third field for a kind of revocation and its argument. */
  function FieldsFor(lib: Lib, revType: RevType, arg: string): Choice {
    match revType
    case RevValid => Choice(None, None)
    case RevNone => Choice(None, None)
    case RevCrlReason =>
      var code := ReasonCode(arg);
      if code == NO_REASON then BadArgument
      else Choice(Some(CRL_REASONS[if code == 8 then 7 else code]), None)
    case RevHold => if lib.oidOk(arg) then Choice(Some("holdInstruction"), Some(arg)) else BadArgument
    case RevKeyCompromise => if lib.genOk(arg) then Choice(Some("keyTime"), Some(arg)) else BadArgument
    case RevCaCompromise => if lib.genOk(arg) then Choice(Some("CAkeyTime"), Some(arg)) else BadArgument
  }

  function Joined(now: string, reason: Option<string>, other: Option<string>): string {
    now + (if reason.Some? then "," + reason.value else "") + (if other.Some? then "," + other.value else "")
  }

  function RevocationText(lib: Lib, revType: RevType, arg: string, now: string): Option<string> {
    match FieldsFor(lib, revType, arg)
    case BadArgument => None
    case Choice(reason, other) => Some(Joined(now, reason, other))
  }

  /** The reason codes of section 5.3.1 of RFC 5280, by name; NO_REASON for any other text. */
  function ReasonCode(name: string): (code: int)
    ensures code == NO_REASON || 0 <= code <= 6 || code == 8
  {
    if CaseEq(name, "unspecified") then 0
    else if CaseEq(name, "keyCompromise") then 1
    else if CaseEq(name, "cACompromise") then 2
    else if CaseEq(name, "affiliationChanged") then 3
    else if CaseEq(name, "superseded") then 4
    else if CaseEq(name, "cessationOfOperation") then 5
    else if CaseEq(name, "certificateHold") then 6
    else if CaseEq(name, "removeFromCRL") then 8
    else NO_REASON
  }

  lemma ReasonShape(i: nat)
    requires i < |CRL_REASONS|
    ensures |CRL_REASONS| == 11
    ensures |CRL_REASONS[i]| == [11, 13, 12, 18, 10, 20, 15, 13, 15, 7, 9][i]
    ensures LowerChar(CRL_REASONS[i][0]) == "ukcascrhkc"[if i < 6 then i else if i == 6 then 2 else i - 1]
  {
  }

  lemma ReasonNoComma(i: nat)
    requires i < |CRL_REASONS|
    ensures ',' !in CRL_REASONS[i]
  {
  }

  lemma ReasonNoBreak(i: nat)
    requires i < |CRL_REASONS|
    ensures '\n' !in CRL_REASONS[i]
  {
  }

  lemma ReasonEnd(i: nat)
    requires i < |CRL_REASONS|
    ensures CRL_REASONS[i] != [] && CRL_REASONS[i][|CRL_REASONS[i]| - 1] != '\\'
  {
  }

  lemma ReasonsDistinct(i: nat, j: nat)
    requires i < |CRL_REASONS| && j < |CRL_REASONS|
    requires CaseEq(CRL_REASONS[i], CRL_REASONS[j])
    ensures i == j
  {
    ReasonShape(i);
    ReasonShape(j);
  }

  lemma OneReason(arg: string, i: nat, j: nat)
    requires IsReason(arg, i) && IsReason(arg, j)
    ensures i == j
  {
    assert forall k :: 0 <= k < |arg| ==> LowerChar(CRL_REASONS[i][k]) == LowerChar(arg[k]);
    ReasonsDistinct(i, j);
  }

  lemma CaseEqVia(a: string, b: string, c: string)
    requires CaseEq(b, c)
    ensures CaseEq(a, b) <==> CaseEq(a, c)
  {
  }

  lemma NamedReason(arg: string)
    ensures IsReason(arg, 0) <==> CaseEq(arg, "unspecified")
    ensures IsReason(arg, 1) <==> CaseEq(arg, "keyCompromise")
    ensures IsReason(arg, 2) <==> CaseEq(arg, "cACompromise")
    ensures IsReason(arg, 3) <==> CaseEq(arg, "affiliationChanged")
    ensures IsReason(arg, 4) <==> CaseEq(arg, "superseded")
    ensures IsReason(arg, 5) <==> CaseEq(arg, "cessationOfOperation")
    ensures IsReason(arg, 6) <==> CaseEq(arg, "certificateHold")
    ensures IsReason(arg, 7) <==> CaseEq(arg, "removeFromCRL")
  {
    assert CaseEq(CRL_REASONS[2], "cACompromise");
    CaseEqVia(arg, CRL_REASONS[2], "cACompromise");
  }

  /** The first eight table entries are the RFC's names, in code order up to the gap at 7. */
  lemma CodeOfReason(arg: string, i: nat)
    requires i < 8 && IsReason(arg, i)
    ensures ReasonCode(arg) == if i == 7 then 8 else i
  {
    NamedReason(arg);
    forall j: nat | j < 8 && IsReason(arg, j)
      ensures i == j
    {
      OneReason(arg, i, j);
    }
  }

  lemma NoReason(arg: string)
    requires forall j: nat :: j < 8 ==> !IsReason(arg, j)
    ensures ReasonCode(arg) == NO_REASON
  {
    NamedReason(arg);
  }

  /** The REV_CRL_REASON case: the table entry that names the argument, in any letter case. */
  method FindCrlReason(arg: string) returns (reason: Option<string>)
    ensures var code := ReasonCode(arg);
            reason == if code == NO_REASON then None
                      else Some(CRL_REASONS[if code == 8 then 7 else code])
  {
    for i := 0 to 8
      invariant forall j: nat :: j < i ==> !IsReason(arg, j)
    {
      if CaseEq(arg, CRL_REASONS[i]) {
        CodeOfReason(arg, i);
        return Some(CRL_REASONS[i]);
      }
    }
    NoReason(arg);
    reason := None;
  }

  /** make_revocation_str: choose the fields for the kind of revocation, then fill. */
  method MakeRevocationStr(lib: Lib, revType: RevType, arg: string, now: string) returns (r: Option<string>)
    ensures r == RevocationText(lib, revType, arg, now)
  {
    var reason: Option<string> := None;
    var other: Option<string> := None;
    match revType {
      case RevNone =>
      case RevValid =>
      case RevCrlReason =>
        reason := FindCrlReason(arg);
        if reason.None? { return None; }
      case RevHold =>
        if !lib.oidOk(arg) { return None; }
        reason, other := Some("holdInstruction"), Some(arg);
      case RevKeyCompromise =>
        if !lib.genOk(arg) { return None; }
        reason, other := Some("keyTime"), Some(arg);
      case RevCaCompromise =>
        if !lib.genOk(arg) { return None; }
        reason, other := Some("CAkeyTime"), Some(arg);
    }
    var str, size := FillBuffer(now, reason, other);
    r := Some(str);
  }

  /** The buffer is sized first and then filled by bounded copies. */
  method FillBuffer(now: string, reason: Option<string>, other: Option<string>) returns (str: string, size: nat)
    ensures str == Joined(now, reason, other)
    ensures |str| + 1 == size  // filled exactly: nothing cut off, nothing left over
  {
    size := |now| + 1;
    if reason.Some? { size := size + |reason.value| + 1; }
    if other.Some? { size := size + |other.value| + 1; }
    str := Strlcpy(now, size);
    if reason.Some? {
      str := Strlcat(str, ",", size);
      str := Strlcat(str, reason.value, size);
      assert str == now + ("," + reason.value);
    }
    ghost var front := str;
    if other.Some? {
      str := Strlcat(str, ",", size);
      str := Strlcat(str, other.value, size);
      assert str == front + ("," + other.value);
    }
  }

  // ------------------------------------------------------------- reading

  /** What unpack_revinfo gives back. `time` is set once the first field parsed,
      even if a later field then fails; the other outputs only on success. */
  datatype RevInfo = RevInfo(
    ok: bool, time: Option<string>, reason: int, hold: Option<string>, compromised: Option<string>)

  datatype Parts = Parts(time: string, reason: Option<string>, arg: Option<string>)

  /** The text cut at its first two commas; later commas belong to the third part. */
  function Cut(str: string): Parts {
    match IndexOf(str, ',')
    case None => Parts(str, None, None)
    case Some(p) => WithReason(str[..p], str[p + 1..])
  }

  function WithReason(time: string, rest: string): Parts {
    match IndexOf(rest, ',')
    case None => Parts(time, Some(rest), None)
    case Some(q) => Parts(time, Some(rest[..q]), Some(rest[q + 1..]))
  }

  function ReasonIndex(text: string, i: nat): (r: Option<nat>)
    requires i <= |CRL_REASONS|
    ensures r.Some? ==> IsReason(text, r.value)
    ensures r.None? ==> forall j :: i <= j < |CRL_REASONS| ==> !IsReason(text, j)
    decreases |CRL_REASONS| - i
  {
    if i == |CRL_REASONS| then None
    else if CaseEq(text, CRL_REASONS[i]) then Some(i)
    else ReasonIndex(text, i + 1)
  }

  function Unpack(lib: Lib, str: string): RevInfo {
    var Parts(time, reason, arg) := Cut(str);
    if !lib.utcOk(time) then RevInfo(false, None, NO_REASON, None, None)
    else if reason.None? then RevInfo(true, Some(time), NO_REASON, None, None)
    else
      var failed := RevInfo(false, Some(time), NO_REASON, None, None);
      match ReasonIndex(reason.value, 0)
      case None => failed
      case Some(i) =>
        if i <= 6 then RevInfo(true, Some(time), i, None, None)
        else if i == 7 then RevInfo(true, Some(time), 8, None, None)
        else if arg.None? then failed
        else if i == 8 then
          if lib.oidOk(arg.value) then RevInfo(true, Some(time), 6, arg, None) else failed
        else
          if lib.genOk(arg.value) then RevInfo(true, Some(time), if i == 9 then 1 else 2, None, arg) else failed
  }

  /** Overwriting one byte of a terminated buffer splits it into two C strings. */
  lemma Overwrite(s: string, p: nat)
    requires p < |s| && '\0' !in s
    ensures var t := (s + "\0")[p := '\0'];
            t[..p] == s[..p] && t[p] == '\0' && t[p + 1..] == s[p + 1..] + "\0" && '\0' !in s[p + 1..]
  {
  }

  lemma Terminated(s: string)
    requires '\0' !in s
    ensures CStr(s + "\0") == s
  {
    assert (s + "\0")[..|s|] == s;
    StringUpTo(s + "\0", |s|);
  }

  /** The first half of unpack_revinfo: commas in a copy of the text are overwritten
      by NULs, and the parts are the C strings that start after them. */
  method CutInPlace(str: string) returns (parts: Parts)
    requires '\0' !in str
    ensures parts == Cut(str)
  {
    var tmp := str + "\0";
    Terminated(str);
    var p := IndexOf(CStr(tmp), ',');
    if p.None? {
      return Parts(CStr(tmp), None, None);
    }
    tmp := tmp[p.value := '\0'];
    Overwrite(str, p.value);
    StringUpTo(tmp, p.value);
    var start := p.value + 1;
    parts := CutReason(CStr(tmp), tmp[start..], str[start..]);
  }

  /** The second comma, in the buffer that starts at the reason. */
  method CutReason(time: string, buffer: string, ghost rest: string) returns (parts: Parts)
    requires '\0' !in rest && buffer == rest + "\0"
    ensures parts == WithReason(time, rest)
  {
    Terminated(rest);
    var q := IndexOf(CStr(buffer), ',');
    if q.None? {
      return Parts(time, Some(CStr(buffer)), None);
    }
    var tmp := buffer[q.value := '\0'];
    TwoStrings(rest, q.value, tmp);
    parts := Parts(time, Some(CStr(tmp)), Some(CStr(tmp[q.value + 1..])));
  }

  lemma TwoStrings(s: string, p: nat, buffer: string)
    requires p < |s| && '\0' !in s && buffer == (s + "\0")[p := '\0']
    ensures CStr(buffer) == s[..p] && CStr(buffer[p + 1..]) == s[p + 1..]
  {
    Overwrite(s, p);
    StringUpTo(buffer, p);
    Terminated(s[p + 1..]);
  }

  /** unpack_revinfo */
  method UnpackRevinfo(lib: Lib, str: string) returns (r: RevInfo)
    requires '\0' !in str
    ensures r == Unpack(lib, str)
  {
    var parts := CutInPlace(str);
    var Parts(timeStr, reasonStr, argStr) := parts;
    if !lib.utcOk(timeStr) {
      return RevInfo(false, None, NO_REASON, None, None);
    }
    var time := Some(timeStr);
    if reasonStr.None? {
      return RevInfo(true, time, NO_REASON, None, None);
    }
    var code := NO_REASON;
    for i := 0 to |CRL_REASONS|
      invariant code == NO_REASON
      invariant ReasonIndex(reasonStr.value, 0) == ReasonIndex(reasonStr.value, i)
    {
      if CaseEq(reasonStr.value, CRL_REASONS[i]) {
        code := i;
        break;
      }
    }
    r := RevInfo(false, time, NO_REASON, None, None);
    if code == NO_REASON {
      return;
    }
    var hold: Option<string> := None;
    var compromised: Option<string> := None;
    if code == 7 {
      code := 8;
    } else if code == 8 {
      if argStr.None? || !lib.oidOk(argStr.value) { return; }
      code, hold := 6, argStr;
    } else if code == 9 || code == 10 {
      if argStr.None? || !lib.genOk(argStr.value) { return; }
      code, compromised := if code == 9 then 1 else 2, argStr;
    }
    r := RevInfo(true, time, code, hold, compromised);
  }

  // ---------------------------------------------------- the texts themselves

  /** Letters 65 to 90 and 97 to 122 count as the same. */
  lemma CaseEqIs(a: string, b: string)
    ensures CaseEq(a, b) <==>
            |a| == |b| && forall i :: 0 <= i < |a| ==>
              || a[i] == b[i]
              || (65 <= a[i] as int <= 90 && b[i] as int == a[i] as int + 32)
              || (65 <= b[i] as int <= 90 && a[i] as int == b[i] as int + 32)
  {
  }

  /** The texts that are made without a reason, and with a third field. */
  lemma TextMade(lib: Lib, arg: string, now: string)
    ensures RevocationText(lib, RevValid, arg, now) == Some(now) == RevocationText(lib, RevNone, arg, now)
    ensures RevocationText(lib, RevHold, arg, now) ==
            if lib.oidOk(arg) then Some(now + ",holdInstruction," + arg) else None
    ensures RevocationText(lib, RevKeyCompromise, arg, now) ==
            if lib.genOk(arg) then Some(now + ",keyTime," + arg) else None
    ensures RevocationText(lib, RevCaCompromise, arg, now) ==
            if lib.genOk(arg) then Some(now + ",CAkeyTime," + arg) else None
  {
    assert now + "" + "" == now;
    ThirdBehind(now, "holdInstruction", arg);
    ThirdBehind(now, "keyTime", arg);
    ThirdBehind(now, "CAkeyTime", arg);
    assert "," + "holdInstruction" + "," == ",holdInstruction,";
    assert "," + "keyTime" + "," == ",keyTime,";
    assert "," + "CAkeyTime" + "," == ",CAkeyTime,";
  }

  lemma ThirdBehind(now: string, reason: string, arg: string)
    ensures Joined(now, Some(reason), Some(arg)) == now + ("," + reason + ",") + arg
  {
  }

  lemma SecondBehind(now: string, reason: string)
    ensures Joined(now, Some(reason), None) == now + ("," + reason)
  {
    assert now + ("," + reason) + "" == now + ("," + reason);
  }

  /** The table of texts. */
  lemma TableIs()
    ensures |CRL_REASONS| == 11
    ensures CRL_REASONS[0] == "unspecified" && CRL_REASONS[1] == "keyCompromise" && CRL_REASONS[2] == "CACompromise"
    ensures CRL_REASONS[3] == "affiliationChanged" && CRL_REASONS[4] == "superseded"
    ensures CRL_REASONS[5] == "cessationOfOperation" && CRL_REASONS[6] == "certificateHold"
    ensures CRL_REASONS[7] == "removeFromCRL" && CRL_REASONS[8] == "holdInstruction"
    ensures CRL_REASONS[9] == "keyTime" && CRL_REASONS[10] == "CAkeyTime"
  {
  }

  /** The text that is made with a reason: one of the first eight names, in the spelling of
      the table, and none for any other. */
  lemma ReasonMade(lib: Lib, arg: string, now: string, i: nat)
    ensures i < 8 && CaseEq(arg, CRL_REASONS[i]) ==>
              RevocationText(lib, RevCrlReason, arg, now) == Some(now + ("," + CRL_REASONS[i]))
    ensures RevocationText(lib, RevCrlReason, arg, now) == None <==>
            forall j: nat :: j < 8 ==> !CaseEq(arg, CRL_REASONS[j])
  {
    forall j: nat | j < 8 && CaseEq(arg, CRL_REASONS[j])
      ensures RevocationText(lib, RevCrlReason, arg, now) == Some(now + ("," + CRL_REASONS[j]))
    {
      CodeOfReason(arg, j);
      SecondBehind(now, CRL_REASONS[j]);
    }
    if forall j: nat :: j < 8 ==> !CaseEq(arg, CRL_REASONS[j]) {
      assert forall j: nat :: j < 8 ==> (IsReason(arg, j) <==> CaseEq(arg, CRL_REASONS[j]));
      NoReason(arg);
    }
  }

  lemma {:induction false} UnpackAt(lib: Lib, text: string, time: string, reason: string, arg: Option<string>, i: nat)
    requires Cut(text) == Parts(time, Some(reason), arg) && lib.utcOk(time) && IsReason(reason, i)
    ensures |CRL_REASONS| == 11
    ensures i <= 6 ==> Unpack(lib, text) == RevInfo(true, Some(time), i, None, None)
    ensures i == 7 ==> Unpack(lib, text) == RevInfo(true, Some(time), 8, None, None)
    ensures i == 8 ==> Unpack(lib, text) ==
                       if arg.Some? && lib.oidOk(arg.value) then RevInfo(true, Some(time), 6, arg, None)
                       else RevInfo(false, Some(time), -1, None, None)
    ensures i > 8 ==> Unpack(lib, text) ==
                      if arg.Some? && lib.genOk(arg.value) then RevInfo(true, Some(time), i - 8, None, arg)
                      else RevInfo(false, Some(time), -1, None, None)
  {
    IndexOfReason(reason, i);
  }

  /** What is read from a text without a comma. */
  lemma TimeRead(lib: Lib, time: string)
    requires ',' !in time
    ensures Unpack(lib, time) ==
            if lib.utcOk(time) then RevInfo(true, Some(time), -1, None, None) else RevInfo(false, None, -1, None, None)
  {
  }

  /** What is read from a text with a reason and perhaps more: nothing if the time is no
      UTCTime; the reason's code; for the last three, which stand for certificateHold,
      keyCompromise and CACompromise, only with an argument that is an object identifier or
      a GeneralizedTime; and for anything else the time alone, as a failure. */
  lemma {:induction false} ReasonRead(
      lib: Lib, time: string, reason: string, arg: Option<string>, text: string, known: Option<nat>)
    requires ',' !in time && ',' !in reason && text == Joined(time, Some(reason), arg)
    requires known.Some? ==> known.value < 11 && CaseEq(reason, CRL_REASONS[known.value])
    requires known.None? ==> forall i: nat :: i < 11 ==> !CaseEq(reason, CRL_REASONS[i])
    ensures !lib.utcOk(time) ==> Unpack(lib, text) == RevInfo(false, None, -1, None, None)
    ensures lib.utcOk(time) ==>
              var failed := RevInfo(false, Some(time), -1, None, None);
              match known
              case None => Unpack(lib, text) == failed
              case Some(i) =>
                Unpack(lib, text) ==
                if i <= 6 then RevInfo(true, Some(time), i, None, None)
                else if i == 7 then RevInfo(true, Some(time), 8, None, None)
                else if arg.None? then failed
                else if i == 8 then if lib.oidOk(arg.value) then RevInfo(true, Some(time), 6, arg, None) else failed
                else if lib.genOk(arg.value) then RevInfo(true, Some(time), if i == 9 then 1 else 2, None, arg)
                else failed
  {
    CutJoined(time, Some(reason), arg);
    if lib.utcOk(time) && known.Some? { UnpackAt(lib, text, time, reason, arg, known.value); }
  }

  // ---------------------------------------------------------- round trip

  /** The reason code that a revocation is meant to carry. */
  function IntendedReason(revType: RevType, arg: string): int {
    match revType
    case RevValid => NO_REASON
    case RevNone => NO_REASON
    case RevCrlReason => ReasonCode(arg)
    case RevHold => ReasonCode("certificateHold")
    case RevKeyCompromise => ReasonCode("keyCompromise")
    case RevCaCompromise => ReasonCode("cACompromise")
  }

  lemma {:induction false} IndexOfReason(text: string, i: nat)
    requires IsReason(text, i)
    ensures ReasonIndex(text, 0) == Some(i)
  {
    var r := ReasonIndex(text, 0);
    if r.Some? { OneReason(text, i, r.value); }
  }

  lemma CutJoined(now: string, reason: Option<string>, other: Option<string>)
    requires ',' !in now && (reason.Some? ==> ',' !in reason.value) && (other.Some? ==> reason.Some?)
    ensures Cut(Joined(now, reason, other)) == Parts(now, reason, other)
  {
    if reason.None? {
      assert Joined(now, reason, other) == now;
    } else {
      var rest := reason.value + (if other.Some? then "," + other.value else "");
      assert Joined(now, reason, other) == now + "," + rest;
      FirstOf(now, ',', rest);
      CutOther(now, reason.value, other);
    }
  }

  lemma CutOther(now: string, reason: string, other: Option<string>)
    requires ',' !in reason
    ensures WithReason(now, reason + (if other.Some? then "," + other.value else "")) == Parts(now, Some(reason), other)
  {
    if other.Some? {
      assert reason + ("," + other.value) == reason + "," + other.value;
      FirstOf(reason, ',', other.value);
    } else {
      assert reason + "" == reason;
    }
  }

  lemma CertificateHoldCodes()
    ensures ReasonCode("certificateHold") == 6
    ensures ReasonCode("keyCompromise") == 1
    ensures ReasonCode("cACompromise") == 2
  {
    CodeOfReason("certificateHold", 6);
    CodeOfReason("keyCompromise", 1);
    assert CaseEq("cACompromise", CRL_REASONS[2]);
    CodeOfReason("cACompromise", 2);
  }

  /** Where the second field of a revocation stands in the table. */
  function ReasonPlace(revType: RevType, arg: string): nat {
    match revType
    case RevCrlReason =>
      (if ReasonCode(arg) == 8 then 7 else if ReasonCode(arg) == NO_REASON then 0 else ReasonCode(arg))
    case RevHold => 8
    case RevKeyCompromise => 9
    case RevCaCompromise => 10
    case _ => 0
  }

  lemma ReasonFromTable(lib: Lib, revType: RevType, arg: string)
    requires FieldsFor(lib, revType, arg).Choice? && FieldsFor(lib, revType, arg).reason.Some?
    ensures |CRL_REASONS| == 11 && ReasonPlace(revType, arg) < 11
    ensures FieldsFor(lib, revType, arg).reason.value == CRL_REASONS[ReasonPlace(revType, arg)]
  {
  }

  /** The table's position gives the intended reason. */
  lemma PlaceOfReason(lib: Lib, revType: RevType, arg: string)
    requires FieldsFor(lib, revType, arg).Choice? && FieldsFor(lib, revType, arg).reason.Some?
    ensures var i, code := ReasonPlace(revType, arg), IntendedReason(revType, arg);
            if i <= 6 then code == i else if i == 7 then code == 8
            else if i == 8 then code == 6 else code == i - 8
    ensures (ReasonPlace(revType, arg) <= 7 <==> revType == RevCrlReason)
  {
    CertificateHoldCodes();
  }

  /** What is unpacked when the second part is entry `i` of the table. */
  lemma UnpackParts(lib: Lib, text: string, time: string, i: nat, arg: Option<string>)
    requires i < |CRL_REASONS| == 11 && Cut(text) == Parts(time, Some(CRL_REASONS[i]), arg)
    ensures !lib.utcOk(time) ==> !Unpack(lib, text).ok && Unpack(lib, text).time.None?
    ensures lib.utcOk(time) && i <= 6 ==> Unpack(lib, text) == RevInfo(true, Some(time), i, None, None)
    ensures lib.utcOk(time) && i == 7 ==> Unpack(lib, text) == RevInfo(true, Some(time), 8, None, None)
    ensures lib.utcOk(time) && i == 8 && arg.Some? && lib.oidOk(arg.value) ==>
              Unpack(lib, text) == RevInfo(true, Some(time), 6, arg, None)
    ensures lib.utcOk(time) && i > 8 && arg.Some? && lib.genOk(arg.value) ==>
              Unpack(lib, text) == RevInfo(true, Some(time), i - 8, None, arg)
  {
    IndexOfReason(CRL_REASONS[i], i);
  }

  /** What the third field is, and that the library accepts it. */
  lemma ThirdField(lib: Lib, revType: RevType, arg: string)
    requires FieldsFor(lib, revType, arg).Choice?
    ensures var c := FieldsFor(lib, revType, arg);
            && (c.reason.None? <==> revType == RevNone || revType == RevValid)
            && c.other == (if ReasonPlace(revType, arg) >= 8 then Some(arg) else None)
            && (ReasonPlace(revType, arg) == 8 ==> lib.oidOk(arg) && revType == RevHold)
            && (ReasonPlace(revType, arg) > 8 ==>
                  lib.genOk(arg) && (revType == RevKeyCompromise || revType == RevCaCompromise))
  {
  }

  /** Every text that make_revocation_str produces is read back by unpack_revinfo with
      the same time, the same third field (commas included) and the intended reason,
      exactly when the clock's text is a UTCTime, as it is before the year 2050. */
  lemma RoundTrip(lib: Lib, revType: RevType, arg: string, now: string)
    requires ',' !in now
    requires RevocationText(lib, revType, arg, now).Some?
    ensures var info := Unpack(lib, RevocationText(lib, revType, arg, now).value);
            && (info.ok <==> lib.utcOk(now)) && (info.time.Some? <==> lib.utcOk(now))
            && (info.ok ==>
                  info == RevInfo(true, Some(now), IntendedReason(revType, arg),
                                  if revType == RevHold then Some(arg) else None,
                                  if revType in {RevKeyCompromise, RevCaCompromise} then Some(arg) else None))
  {
    var Choice(reason, other) := FieldsFor(lib, revType, arg);
    ThirdField(lib, revType, arg);
    if reason.Some? {
      var i := ReasonPlace(revType, arg);
      ReasonFromTable(lib, revType, arg);
      ReasonNoComma(i);
      CutJoined(now, reason, other);
      UnpackParts(lib, Joined(now, reason, other), now, i, other);
      PlaceOfReason(lib, revType, arg);
    } else {
      CutJoined(now, reason, other);
    }
  }
}
