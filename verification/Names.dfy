/** Distinguished names as `ca` handles them: the policy check that builds a
    certificate's subject, and the removal of e-mail entries from it. */
module Names {
  import opened Text

  /** ASN1_STRING_cmp compares length, bytes and type, so it is equality here. */
  datatype Value = Value(typ: int, data: string)

  /** One attribute; entries with the same `rdn` number form one RDN. */
  datatype Entry = Entry(obj: int, val: Value, rdn: int)

  type Name = seq<Entry>

  /** NID_pkcs9_emailAddress */
  const EMAIL := 48

  /** A line of the policy section: `obj` is None for an unknown type name. */
  datatype PolicyLine = PolicyLine(obj: Option<int>, rule: string)

  /** X509_NAME_get_index_by_OBJ: the first entry of type `obj` after `last`, or -1. */
  function GetIndex(name: Name, obj: int, last: int): (j: int)
    requires -1 <= last < |name|
    ensures -1 <= j < |name|
    ensures j == -1 ==> forall k :: last < k < |name| ==> name[k].obj != obj
    ensures j != -1 ==> last < j && name[j].obj == obj && forall k :: last < k < j ==> name[k].obj != obj
    decreases |name| - last
  {
    if last + 1 == |name| then -1
    else if name[last + 1].obj == obj then last + 1
    else GetIndex(name, obj, last + 1)
  }

  /** X509_NAME_add_entry with loc -1 and set 0: append as an RDN of its own. */
  function AddEntry(name: Name, e: Entry): Name {
    name + [Entry(e.obj, e.val, if name == [] then 0 else name[|name| - 1].rdn + 1)]
  }

  // ---------------------------------------------------------------- policy

  /** The entries of type `obj`, in order. */
  function Matching(name: Name, obj: int): Name
  {
    if name == [] then []
    else
      Matching(name[..|name| - 1], obj) +
      (if name[|name| - 1].obj == obj then [name[|name| - 1]] else [])
  }

  /** What the subject consists of: in policy order, all request entries of each type. */
  function Selected(policy: seq<PolicyLine>, name: Name): Name {
    if policy == [] then []
    else
      var line := policy[|policy| - 1];
      Selected(policy[..|policy| - 1], name) +
      (if line.obj.Some? then Matching(name, line.obj.value) else [])
  }

  /** The same attributes, each in its own RDN, numbered from 0. */
  function OwnRdns(entries: Name): (r: Name)
    ensures |r| == |entries|
    ensures entries != [] ==> r[|r| - 1].rdn == |r| - 1
  {
    if entries == [] then []
    else
      var n := |entries| - 1;
      OwnRdns(entries[..n]) + [Entry(entries[n].obj, entries[n].val, n)]
  }

  predicate Has(name: Name, obj: int) {
    exists k :: 0 <= k < |name| && name[k].obj == obj
  }

  /** The CA's own name has an entry of this type with this value. */
  predicate CaAgrees(ca: Name, obj: int, val: Value) {
    exists k :: 0 <= k < |ca| && ca[k].obj == obj && ca[k].val == val
  }

  predicate AllAgree(name: Name, ca: Name, obj: int) {
    forall k :: 0 <= k < |name| && name[k].obj == obj ==> CaAgrees(ca, obj, name[k].val)
  }

  predicate LineMet(line: PolicyLine, name: Name, ca: Name) {
    line.obj.Some? &&
    (|| line.rule == "optional"
     || (line.rule == "supplied" && Has(name, line.obj.value))
     || (line.rule == "match" && Has(name, line.obj.value) && AllAgree(name, ca, line.obj.value)))
  }

  predicate PolicyMet(policy: seq<PolicyLine>, name: Name, ca: Name) {
    forall i :: 0 <= i < |policy| ==> LineMet(policy[i], name, ca)
  }

  /** The policy is met exactly if every line names a known type and a rule, each type that
      must be supplied or match is in the request, and all request entries of a type that
      must match are equal to one of the CA's. */
  lemma PolicyMetExactlyIf(policy: seq<PolicyLine>, name: Name, ca: Name)
    ensures PolicyMet(policy, name, ca) <==>
            forall i :: 0 <= i < |policy| ==>
              var line := policy[i];
              && line.obj.Some?
              && line.rule in {"optional", "supplied", "match"}
              && (line.rule != "optional" ==> exists k :: 0 <= k < |name| && name[k].obj == line.obj.value)
              && (line.rule == "match" ==>
                    forall k :: 0 <= k < |name| && name[k].obj == line.obj.value ==>
                      exists j :: 0 <= j < |ca| && ca[j].obj == name[k].obj && ca[j].val == name[k].val)
  {
    forall i | 0 <= i < |policy|
      ensures LineMet(policy[i], name, ca) <==>
                && policy[i].obj.Some?
                && policy[i].rule in {"optional", "supplied", "match"}
                && (policy[i].rule != "optional" ==> Has(name, policy[i].obj.value))
                && (policy[i].rule == "match" ==> AllAgree(name, ca, policy[i].obj.value))
    {
    }
  }

  /** A selection takes the entries of the type, in order, and of the types of the lines in
      the lines' order. */
  lemma {:induction false} MatchingEntry(e: Entry, obj: int)
    ensures Matching([], obj) == [] && Matching([e], obj) == if e.obj == obj then [e] else []
  {
    assert [e][..0] == [] && [] + [e] == [e];
  }

  lemma {:induction false} MatchingIs(a: Name, b: Name, obj: int)
    ensures Matching(a + b, obj) == Matching(a, obj) + Matching(b, obj)
  {
    if b == [] {
      assert a + b == a && Matching(a, obj) + [] == Matching(a, obj);
    } else {
      var n := |b| - 1;
      assert (a + b)[..|a + b| - 1] == a + b[..n];
      MatchingIs(a, b[..n], obj);
    }
  }

  lemma {:induction false} SelectedLine(line: PolicyLine, name: Name)
    ensures Selected([], name) == []
    ensures Selected([line], name) == if line.obj.Some? then Matching(name, line.obj.value) else []
  {
    assert [line][..0] == [];
  }

  lemma {:induction false} SelectedIs(a: seq<PolicyLine>, b: seq<PolicyLine>, name: Name)
    ensures Selected(a + b, name) == Selected(a, name) + Selected(b, name)
  {
    if b == [] {
      assert a + b == a && Selected(a, name) + [] == Selected(a, name);
    } else {
      var n := |b| - 1;
      assert (a + b)[..|a + b| - 1] == a + b[..n];
      SelectedIs(a, b[..n], name);
    }
  }

  lemma {:induction false} OwnRdnsIs(entries: Name, i: nat)
    requires i < |entries|
    ensures OwnRdns(entries)[i] == Entry(entries[i].obj, entries[i].val, i)
  {
    if i < |entries| - 1 { OwnRdnsIs(entries[..|entries| - 1], i); }
  }

  lemma {:induction false} MatchingSkips(name: Name, obj: int, lo: nat, hi: nat)
    requires lo <= hi <= |name|
    requires forall k :: lo <= k < hi ==> name[k].obj != obj
    ensures Matching(name[..hi], obj) == Matching(name[..lo], obj)
    decreases hi
  {
    if lo < hi {
      assert name[..hi][..hi - 1] == name[..hi - 1];
      MatchingSkips(name, obj, lo, hi - 1);
    }
  }

  lemma {:induction false} MatchingTakes(name: Name, obj: int, j: nat)
    requires j < |name| && name[j].obj == obj
    ensures Matching(name[..j + 1], obj) == Matching(name[..j], obj) + [name[j]]
  {
    assert name[..j + 1][..j] == name[..j];
  }

  /** Appending an entry of the right type and value adds it to the selection. */
  lemma {:induction false} Pushed(sel: Name, name: Name, obj: int, last: int, j: nat, push: Entry)
    requires -1 <= last < j < |name| && name[j].obj == obj
    requires forall k :: last < k < j ==> name[k].obj != obj
    requires push.obj == obj && push.val == name[j].val
    ensures AddEntry(OwnRdns(sel + Matching(name[..last + 1], obj)), push) ==
            OwnRdns(sel + Matching(name[..j + 1], obj))
  {
    MatchingSkips(name, obj, last + 1, j);
    MatchingTakes(name, obj, j);
    var before := Matching(name[..j], obj);
    assert sel + (before + [name[j]]) == sel + before + [name[j]];
    Appended(sel + before, name[j], push);
  }

  lemma {:induction false} Appended(m: Name, e: Entry, push: Entry)
    requires push.obj == e.obj && push.val == e.val
    ensures AddEntry(OwnRdns(m), push) == OwnRdns(m + [e])
  {
    assert (m + [e])[..|m|] == m;
  }

  lemma {:induction false} SelectedStep(policy: seq<PolicyLine>, i: nat, name: Name)
    requires i < |policy| && policy[i].obj.Some?
    ensures Selected(policy[..i + 1], name) == Selected(policy[..i], name) + Matching(name, policy[i].obj.value)
  {
    assert policy[..i + 1][..i] == policy[..i];
  }

  /** The policy loop of do_body: line after line, until one is not met. */
  method BuildSubject(policy: seq<PolicyLine>, name: Name, ca: Name) returns (r: Option<Name>)
    ensures r.Some? <==> PolicyMet(policy, name, ca)
    ensures r.Some? ==> r.value == OwnRdns(Selected(policy, name))
  {
    var subject: Name := [];
    var i := 0;
    while i < |policy|
      invariant 0 <= i <= |policy|
      invariant forall k :: 0 <= k < i ==> LineMet(policy[k], name, ca)
      invariant subject == OwnRdns(Selected(policy[..i], name))
    {
      if policy[i].obj.None? {
        return None;
      }
      var next := ApplyLine(policy[i], name, ca, subject, Selected(policy[..i], name));
      if next.None? {
        return None;
      }
      subject := next.value;
      SelectedStep(policy, i, name);
      i := i + 1;
    }
    assert policy[..|policy|] == policy;
    r := Some(subject);
  }

  /** Whether entry `last` of the request (-1 for none) is what the line asks for. */
  predicate EntryMeets(line: PolicyLine, name: Name, ca: Name, last: int)
    requires line.obj.Some? && -1 <= last < |name|
  {
    || line.rule == "optional"
    || (last >= 0 && line.rule == "supplied")
    || (last >= 0 && line.rule == "match" && CaAgrees(ca, line.obj.value, name[last].val))
  }

  /** The decision on one entry: the entry to push, for "match" the CA's equal one. */
  method Decide(line: PolicyLine, name: Name, ca: Name, last: int) returns (met: bool, push: Option<Entry>)
    requires line.obj.Some? && -1 <= last < |name| && (last >= 0 ==> name[last].obj == line.obj.value)
    ensures met == EntryMeets(line, name, ca, last)
    ensures met && last < 0 ==> push.None?
    ensures met && last >= 0 ==> push.Some? && push.value.obj == name[last].obj && push.value.val == name[last].val
  {
    push := None;
    if line.rule == "optional" {
      if last >= 0 { push := Some(name[last]); }
    } else if line.rule == "supplied" {
      if last < 0 { return false, None; }
      push := Some(name[last]);
    } else if line.rule == "match" {
      if last < 0 { return false, None; }
      var j := FindInCa(ca, line.obj.value, name[last].val);
      if j < 0 { return false, None; }
      push := Some(ca[j]);
    } else {
      return false, None;
    }
    met := true;
  }

  /** The line is met by the entries of its type up to `last`. */
  predicate MetUpTo(line: PolicyLine, name: Name, ca: Name, last: int)
    requires line.obj.Some? && -1 <= last < |name|
  {
    forall k :: 0 <= k <= last && name[k].obj == line.obj.value ==> EntryMeets(line, name, ca, k)
  }

  lemma LineMetBy(line: PolicyLine, name: Name, ca: Name, last: int)
    requires line.obj.Some? && 0 <= last < |name| && name[last].obj == line.obj.value
    requires MetUpTo(line, name, ca, last)
    requires forall k :: last < k < |name| ==> name[k].obj != line.obj.value
    ensures LineMet(line, name, ca)
  {
    assert EntryMeets(line, name, ca, last);
  }

  lemma LineNotMetBy(line: PolicyLine, name: Name, ca: Name, last: int)
    requires line.obj.Some? && 0 <= last < |name| && name[last].obj == line.obj.value
    requires !EntryMeets(line, name, ca, last)
    ensures !LineMet(line, name, ca)
  {
  }

  lemma {:induction false} LineWithoutEntry(line: PolicyLine, name: Name, ca: Name)
    requires line.obj.Some? && !Has(name, line.obj.value)
    ensures LineMet(line, name, ca) <==> EntryMeets(line, name, ca, -1)
    ensures Matching(name, line.obj.value) == []
  {
    MatchingSkips(name, line.obj.value, 0, |name|);
    assert name[..|name|] == name;
  }

  /** One policy line: walk the request's entries of that type, and for "match"
      find for each an equal entry of the CA. */
  method ApplyLine(line: PolicyLine, name: Name, ca: Name, before: Name, ghost sel: Name)
    returns (r: Option<Name>)
    requires line.obj.Some? && before == OwnRdns(sel)
    ensures r.Some? <==> LineMet(line, name, ca)
    ensures r.Some? ==> r.value == OwnRdns(sel + Matching(name, line.obj.value))
  {
    ghost var obj := line.obj.value;
    var subject := before;
    var last := -1;
    assert sel + [] == sel && name[..0] == [] && name[..|name|] == name;
    while true
      invariant -1 <= last < |name|
      invariant subject == OwnRdns(sel + Matching(name[..last + 1], obj))
      invariant last != -1 ==> name[last].obj == obj
      invariant MetUpTo(line, name, ca, last)
      decreases |name| - last
    {
      ghost var prev := last;
      var j := GetIndex(name, line.obj.value, last);
      if j < 0 && last != -1 {
        MatchingSkips(name, obj, last + 1, |name|);
        LineMetBy(line, name, ca, last);
        return Some(subject);
      }
      last := j;
      var met, push := Decide(line, name, ca, last);
      if last < 0 {
        LineWithoutEntry(line, name, ca);
        return if met then Some(subject) else None;
      }
      if !met {
        LineNotMetBy(line, name, ca, last);
        return None;
      }
      Pushed(sel, name, obj, prev, last, push.value);
      subject := AddEntry(subject, push.value);
    }
  }

  /** The `again2` loop: the first CA entry of this type with an equal value, or -1. */
  method FindInCa(ca: Name, obj: int, val: Value) returns (j: int)
    ensures -1 <= j < |ca|
    ensures j >= 0 ==> ca[j].obj == obj && ca[j].val == val
    ensures j >= 0 <==> CaAgrees(ca, obj, val)
  {
    var last2 := -1;
    j := GetIndex(ca, obj, last2);
    while j >= 0 && ca[j].val != val
      invariant -1 <= last2 < |ca| && (j == -1 || last2 < j < |ca|)
      invariant j == GetIndex(ca, obj, last2)
      invariant forall k :: 0 <= k <= last2 && ca[k].obj == obj ==> ca[k].val != val
      decreases |ca| - last2
    {
      last2 := j;
      j := GetIndex(ca, obj, last2);
    }
  }

  // ------------------------------------------------------- e-mail removal

  /** RDN numbers never fall. A decoded name has a gap where it had an empty RDN. */
  predicate Ordered(name: Name) {
    forall i :: 0 < i < |name| ==> name[i - 1].rdn <= name[i].rdn
  }

  /** RDN numbers start at 0 and never skip, as X509_NAME_add_entry makes them. */
  predicate WellFormed(name: Name) {
    && (name != [] ==> name[0].rdn == 0)
    && forall i :: 0 < i < |name| ==> name[i - 1].rdn <= name[i].rdn <= name[i - 1].rdn + 1
  }

  function ShiftRdns(name: Name, delta: int): (r: Name)
    ensures |r| == |name|
    ensures forall i :: 0 <= i < |r| ==> r[i] == Entry(name[i].obj, name[i].val, name[i].rdn - delta)
  {
    if name == [] then []
    else [Entry(name[0].obj, name[0].val, name[0].rdn - delta)] + ShiftRdns(name[1..], delta)
  }

  /** X509_NAME_delete_entry: later RDNs move down by one if a whole RDN vanished. */
  function DeleteEntry(name: Name, loc: nat): (r: Name)
    requires loc < |name|
    ensures |r| == |name| - 1
  {
    var rest := name[..loc] + name[loc + 1..];
    if loc == |rest| then rest
    else
      var setPrev := if loc != 0 then rest[loc - 1].rdn else name[loc].rdn - 1;
      if setPrev + 1 < rest[loc].rdn then rest[..loc] + ShiftRdns(rest[loc..], 1) else rest
  }

  function NonEmail(name: Name): Name
  {
    if name == [] then []
    else if name[0].obj == EMAIL then NonEmail(name[1..])
    else [name[0]] + NonEmail(name[1..])
  }

  /** `r` has the attributes of `k`, in order and grouped into the same RDNs. */
  ghost predicate SameStructure(r: Name, k: Name) {
    && |r| == |k|
    && (forall i :: 0 <= i < |r| ==> r[i].obj == k[i].obj && r[i].val == k[i].val)
    && (forall i, j :: 0 <= i < |r| && 0 <= j < |r| ==> (r[i].rdn == r[j].rdn <==> k[i].rdn == k[j].rdn))
  }

  lemma {:induction false} Monotone(name: Name, i: nat, j: nat)
    requires Ordered(name) && i <= j < |name|
    ensures name[i].rdn <= name[j].rdn
  {
    if i < j { Monotone(name, i, j - 1); }
  }

  lemma {:induction false} NonEmailConcat(a: Name, b: Name)
    ensures NonEmail(a + b) == NonEmail(a) + NonEmail(b)
  {
    if a == [] {
      assert a + b == b;
    } else {
      assert (a + b)[1..] == a[1..] + b;
      NonEmailConcat(a[1..], b);
    }
  }

  /** Only entries of the type of an e-mail address, number 48, are left out. */
  lemma {:induction false} NonEmailIs(a: Name, b: Name, e: Entry)
    ensures NonEmail([]) == [] && NonEmail([e]) == if e.obj == 48 then [] else [e]
    ensures NonEmail(a + b) == NonEmail(a) + NonEmail(b)
  {
    assert [e][1..] == [] && [e] + [] == [e];
    NonEmailConcat(a, b);
  }

  lemma {:induction false} NonEmailShift(a: Name, delta: int)
    ensures NonEmail(ShiftRdns(a, delta)) == ShiftRdns(NonEmail(a), delta)
  {
    if a != [] {
      var s, n := ShiftRdns(a, delta), NonEmail(a);
      NonEmailShift(a[1..], delta);
      assert s[1..] == ShiftRdns(a[1..], delta);
      assert s[0].obj == a[0].obj;
      if a[0].obj != EMAIL {
        assert n[1..] == NonEmail(a[1..]) && n[0] == a[0];
        assert ShiftRdns(n, delta) == [s[0]] + ShiftRdns(n[1..], delta);
      }
    }
  }

  lemma {:induction false} NonEmailUnchanged(a: Name)
    requires forall i :: 0 <= i < |a| ==> a[i].obj != EMAIL
    ensures NonEmail(a) == a
  {
    if a != [] { NonEmailUnchanged(a[1..]); }
  }

  lemma {:induction false} NonEmailIn(name: Name, e: Entry)
    requires e in NonEmail(name)
    ensures e in name
  {
    if e !in NonEmail(name[1..]) {
      assert e == name[0];
    } else {
      NonEmailIn(name[1..], e);
    }
  }

  /** Moving all later RDNs down by one keeps distinct RDNs distinct if there was a gap. */
  lemma {:induction false} ShiftKeepsStructure(p: Name, q: Name)
    requires forall e, f :: e in p && f in q ==> e.rdn < f.rdn - 1
    ensures SameStructure(p + ShiftRdns(q, 1), p + q)
  {
    var r, k := p + ShiftRdns(q, 1), p + q;
    forall i, j | 0 <= i < |r| && 0 <= j < |r|
      ensures r[i].rdn == r[j].rdn <==> k[i].rdn == k[j].rdn
    {
      if i < |p| <= j {
        assert p[i] in p && q[j - |p|] in q;
      } else if j < |p| <= i {
        assert p[j] in p && q[i - |p|] in q;
      }
    }
  }

  lemma GapAcross(name: Name, loc: nat)
    requires Ordered(name) && 0 < loc && loc + 1 < |name|
    requires name[loc - 1].rdn + 1 < name[loc + 1].rdn
    ensures forall e, f :: e in name[..loc] && f in name[loc + 1..] ==> e.rdn < f.rdn - 1
  {
    var p, q := name[..loc], name[loc + 1..];
    forall e, f | e in p && f in q
      ensures e.rdn < f.rdn - 1
    {
      var i :| 0 <= i < |p| && p[i] == e;
      var j :| 0 <= j < |q| && q[j] == f;
      Monotone(name, i, loc - 1);
      Monotone(name, loc + 1, loc + 1 + j);
    }
  }

  /** The RDN left behind by its only entry is closed up by those that follow. */
  lemma DeletedRdn(name: Name, loc: nat, i: nat)
    requires loc < |name| && i < |name| - 1
    ensures var front := if loc > 0 then name[loc - 1].rdn else name[loc].rdn - 1;
            DeleteEntry(name, loc)[i].rdn ==
            if i < loc then name[i].rdn
            else if front + 1 < name[loc + 1].rdn then name[i + 1].rdn - 1 else name[i + 1].rdn
  {
  }

  lemma DeleteWellFormed(name: Name, loc: nat)
    requires WellFormed(name) && loc < |name|
    ensures WellFormed(DeleteEntry(name, loc))
  {
    var r := DeleteEntry(name, loc);
    if r != [] { DeletedRdn(name, loc, 0); }
    forall i | 0 < i < |r|
      ensures r[i - 1].rdn <= r[i].rdn <= r[i - 1].rdn + 1
    {
      DeletedRdn(name, loc, i - 1);
      DeletedRdn(name, loc, i);
      assert name[i - 1].rdn <= name[i].rdn <= name[i - 1].rdn + 1;
      assert name[i].rdn <= name[i + 1].rdn <= name[i].rdn + 1;
    }
  }

  lemma {:induction false} NonEmailSplit(p: Name, e: Entry, q: Name)
    requires e.obj == EMAIL
    ensures NonEmail(p + [e] + q) == NonEmail(p) + NonEmail(q)
  {
    assert p + [e] + q == p + ([e] + q);
    NonEmailConcat(p, [e] + q);
    assert ([e] + q)[1..] == q;
  }

  lemma DeleteOrdered(name: Name, loc: nat)
    requires Ordered(name) && loc < |name|
    ensures Ordered(DeleteEntry(name, loc))
  {
    var r := DeleteEntry(name, loc);
    forall i | 0 < i < |r|
      ensures r[i - 1].rdn <= r[i].rdn
    {
      assert name[i - 1].rdn <= name[i].rdn;
      assert name[i].rdn <= name[i + 1].rdn;
    }
  }

  /** Either nothing moves, or all that follows moves down by one because an RDN vanished. */
  lemma DeleteCases(name: Name, loc: nat)
    requires loc < |name|
    ensures var p, q, r := name[..loc], name[loc + 1..], DeleteEntry(name, loc);
            || r == p + q
            || (r == p + ShiftRdns(q, 1) && q != [] && (loc > 0 ==> name[loc - 1].rdn + 1 < name[loc + 1].rdn))
  {
    var p, q := name[..loc], name[loc + 1..];
    assert (p + q)[..loc] == p && (p + q)[loc..] == q;
  }

  lemma StructureItself(name: Name)
    ensures SameStructure(name, name)
  {
  }

  lemma ShiftedKeeps(name: Name, loc: nat)
    requires Ordered(name) && loc < |name|
    requires loc + 1 < |name| && (loc > 0 ==> name[loc - 1].rdn + 1 < name[loc + 1].rdn)
    ensures var p, q := NonEmail(name[..loc]), NonEmail(name[loc + 1..]);
            SameStructure(p + ShiftRdns(q, 1), p + q)
  {
    var p, q := name[..loc], name[loc + 1..];
    if loc > 0 { GapAcross(name, loc); }
    forall e, f | e in NonEmail(p) && f in NonEmail(q)
      ensures e.rdn < f.rdn - 1
    {
      NonEmailIn(p, e);
      NonEmailIn(q, f);
    }
    ShiftKeepsStructure(NonEmail(p), NonEmail(q));
  }

  lemma {:induction false} SplitAtEmail(name: Name, loc: nat)
    requires loc < |name| && name[loc].obj == EMAIL
    ensures NonEmail(name) == NonEmail(name[..loc]) + NonEmail(name[loc + 1..])
  {
    assert name == name[..loc] + [name[loc]] + name[loc + 1..];
    NonEmailSplit(name[..loc], name[loc], name[loc + 1..]);
  }

  /** Deleting an e-mail entry keeps the order of the others and their grouping into RDNs. */
  lemma {:induction false} DeleteKeeps(name: Name, loc: nat)
    requires Ordered(name) && loc < |name| && name[loc].obj == EMAIL
    ensures Ordered(DeleteEntry(name, loc))
    ensures SameStructure(NonEmail(DeleteEntry(name, loc)), NonEmail(name))
  {
    DeleteOrdered(name, loc);
    SplitAtEmail(name, loc);
    DeleteCases(name, loc);
    var p, q, r := name[..loc], name[loc + 1..], DeleteEntry(name, loc);
    if r == p + q {
      NonEmailConcat(p, q);
      StructureItself(NonEmail(name));
    } else {
      NonEmailConcat(p, ShiftRdns(q, 1));
      NonEmailShift(q, 1);
      ShiftedKeeps(name, loc);
    }
  }

  /** The RDN numbers of `k` closed up: from 0, one more wherever a new RDN begins. */
  function CloseUp(k: Name): (r: Name)
    ensures |r| == |k|
  {
    if k == [] then []
    else
      var n := |k| - 1;
      var front := CloseUp(k[..n]);
      var rdn := if n == 0 then 0 else front[n - 1].rdn + (if k[n].rdn == k[n - 1].rdn then 0 else 1);
      front + [Entry(k[n].obj, k[n].val, rdn)]
  }

  lemma PrefixStructure(r: Name, k: Name, n: nat)
    requires WellFormed(r) && SameStructure(r, k) && n <= |r|
    ensures WellFormed(r[..n]) && SameStructure(r[..n], k[..n])
  {
  }

  /** A name is determined by its attributes and their grouping. */
  lemma {:induction false} StructureDetermines(r: Name, k: Name)
    requires WellFormed(r) && SameStructure(r, k)
    ensures r == CloseUp(k)
  {
    if k != [] {
      var n := |k| - 1;
      PrefixStructure(r, k, n);
      StructureDetermines(r[..n], k[..n]);
      assert r == r[..n] + [r[n]];
      if n > 0 {
        assert r[..n][n - 1] == r[n - 1];
        assert r[n - 1].rdn <= r[n].rdn <= r[n - 1].rdn + 1;
        assert r[n].rdn == r[n - 1].rdn <==> k[n].rdn == k[n - 1].rdn;
      }
    }
  }

  lemma SameStructureTransitive(a: Name, b: Name, c: Name)
    requires SameStructure(a, b) && SameStructure(b, c)
    ensures SameStructure(a, c)
  {
  }

  /** The name without its e-mail entries, deleted one by one from the front. */
  function WithoutEmail(name: Name): Name
    decreases |name|
  {
    var i := GetIndex(name, EMAIL, -1);
    if i < 0 then name else WithoutEmail(DeleteEntry(name, i))
  }

  predicate NoEmail(name: Name) {
    forall k :: 0 <= k < |name| ==> name[k].obj != EMAIL
  }

  /** What is left is every other entry, in order and in its RDN. */
  lemma {:induction false} WithoutEmailKeeps(name: Name)
    requires Ordered(name)
    ensures var r := WithoutEmail(name); NoEmail(r) && Ordered(r) && SameStructure(r, NonEmail(name))
    decreases |name|
  {
    var i := GetIndex(name, EMAIL, -1);
    if i < 0 {
      NonEmailUnchanged(name);
      StructureItself(name);
    } else {
      var next := DeleteEntry(name, i);
      DeleteKeeps(name, i);
      WithoutEmailKeeps(next);
      SameStructureTransitive(WithoutEmail(next), NonEmail(next), NonEmail(name));
    }
  }

  lemma {:induction false} WithoutEmailWellFormed(name: Name)
    requires WellFormed(name)
    ensures WellFormed(WithoutEmail(name))
    decreases |name|
  {
    var i := GetIndex(name, EMAIL, -1);
    if i >= 0 {
      DeleteWellFormed(name, i);
      WithoutEmailWellFormed(DeleteEntry(name, i));
    }
  }

  /** If the numbers were gapless, they are closed up. */
  lemma {:induction false} WithoutEmailCloses(name: Name)
    requires WellFormed(name)
    ensures WithoutEmail(name) == CloseUp(NonEmail(name))
  {
    WithoutEmailKeeps(name);
    WithoutEmailWellFormed(name);
    StructureDetermines(WithoutEmail(name), NonEmail(name));
  }

  /** A search may start anywhere before the first entry of the type. */
  lemma {:induction false} SearchFrom(name: Name, obj: int, last: int)
    requires -1 <= last < |name| && forall k :: 0 <= k <= last ==> name[k].obj != obj
    ensures GetIndex(name, obj, last) == GetIndex(name, obj, -1)
  {
  }

  /** The search-delete-step-back loop of do_body. For every name it ends and leaves no
      e-mail entry; if the RDN numbers never fall, what is left is every other entry, in
      order and in its RDN; if they are gapless, they are closed up. */
  method RemoveEmail(name: Name) returns (r: Name)
    ensures r == WithoutEmail(name)
    ensures NoEmail(r)
    ensures Ordered(name) ==> Ordered(r) && SameStructure(r, NonEmail(name))
    ensures WellFormed(name) ==> r == CloseUp(NonEmail(name))
  {
    r := name;
    var i := GetIndex(r, EMAIL, -1);
    while i >= 0
      invariant -1 <= i < |r| && i == GetIndex(r, EMAIL, -1)
      invariant WithoutEmail(r) == WithoutEmail(name)
      decreases |r|
    {
      ghost var before := r;
      r := DeleteEntry(r, i);
      assert forall k :: 0 <= k < i ==> r[k] == before[k];
      i := i - 1;
      SearchFrom(r, EMAIL, i);
      i := GetIndex(r, EMAIL, i);
    }
    if Ordered(name) { WithoutEmailKeeps(name); }
    if WellFormed(name) { WithoutEmailCloses(name); }
  }

  lemma {:induction false} OwnRdnsWellFormed(entries: Name)
    ensures WellFormed(OwnRdns(entries))
  {
    if entries != [] {
      var n := |entries| - 1;
      OwnRdnsWellFormed(entries[..n]);
      var front, r := OwnRdns(entries[..n]), OwnRdns(entries);
      forall i | 0 < i < |r|
        ensures r[i - 1].rdn <= r[i].rdn <= r[i - 1].rdn + 1
      {
        if i < n { assert front[i - 1].rdn <= front[i].rdn <= front[i - 1].rdn + 1; }
      }
    }
  }
}
