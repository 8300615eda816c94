/** The signer options of the cms command: how -signer, -inkey and -keyopt arguments are
    grouped, one group a signature. The specification cuts the command line into groups
    where an option would repeat; the program keeps two pending names and three lists. */
module CmsSigners {
  import opened Text

  datatype Event = Signer(file: string) | Inkey(file: string) | Keyopt(opt: string)

  type Group = seq<Event>

  /** The command line so far: the finished groups and the one still open. */
  datatype Cutting = Cutting(closed: seq<Group>, open: Group)

  function SignerOf(g: Group): Option<string> {
    if g == [] then None
    else
      var e := g[|g| - 1];
      if e.Signer? then Some(e.file) else SignerOf(g[..|g| - 1])
  }

  function KeyOf(g: Group): Option<string> {
    if g == [] then None
    else
      var e := g[|g| - 1];
      if e.Inkey? then Some(e.file) else KeyOf(g[..|g| - 1])
  }

  function OptsOf(g: Group): seq<string> {
    if g == [] then []
    else
      var e := g[|g| - 1];
      if e.Keyopt? then OptsOf(g[..|g| - 1]) + [e.opt] else OptsOf(g[..|g| - 1])
  }

  /** The option would be the second of its kind. */
  predicate Repeats(g: Group, e: Event) {
    (e.Signer? && SignerOf(g).Some?) || (e.Inkey? && KeyOf(g).Some?)
  }

  function Next(c: Cutting, e: Event): Cutting {
    if Repeats(c.open, e) then Cutting(c.closed + [c.open], [e]) else Cutting(c.closed, c.open + [e])
  }

  const NOTHING := Cutting([], [])

  function CutTo(events: seq<Event>, n: nat): Cutting
    requires n <= |events|
  {
    if n == 0 then NOTHING else Next(CutTo(events, n - 1), events[n - 1])
  }

  function Cut(events: seq<Event>): Cutting {
    CutTo(events, |events|)
  }

  function Groups(events: seq<Event>): seq<Group> {
    if events == [] then [] else Cut(events).closed + [Cut(events).open]
  }

  /** A usable command line: key options belong to some group, and every group has a signer. */
  predicate Acceptable(events: seq<Event>) {
    && events != [] && !events[0].Keyopt?
    && forall i :: 0 <= i < |Groups(events)| ==> SignerOf(Groups(events)[i]).Some?
  }

  /** One signature to be made. Without a key the signer's file is also the key's. */
  datatype Job = Job(signer: string, key: string, options: seq<string>)

  predicate MadeFor(job: Job, g: Group) {
    && SignerOf(g) == Some(job.signer)
    && job.key == (match KeyOf(g) case Some(k) => k case None => job.signer)
    && job.options == OptsOf(g)
  }

  // ------------------------------------------------ what the cutting means

  function CountSigners(g: Group): nat {
    if g == [] then 0 else CountSigners(g[..|g| - 1]) + (if g[|g| - 1].Signer? then 1 else 0)
  }

  function CountKeys(g: Group): nat {
    if g == [] then 0 else CountKeys(g[..|g| - 1]) + (if g[|g| - 1].Inkey? then 1 else 0)
  }

  predicate AtMostOneEach(g: Group) {
    CountSigners(g) <= 1 && CountKeys(g) <= 1
  }

  lemma {:induction false} NoneCounted(g: Group)
    ensures SignerOf(g).None? <==> CountSigners(g) == 0
    ensures KeyOf(g).None? <==> CountKeys(g) == 0
  {
    if g != [] { NoneCounted(g[..|g| - 1]); }
  }

  lemma {:induction false} Snoc(g: Group, e: Event)
    ensures SignerOf(g + [e]) == if e.Signer? then Some(e.file) else SignerOf(g)
    ensures KeyOf(g + [e]) == if e.Inkey? then Some(e.file) else KeyOf(g)
    ensures OptsOf(g + [e]) == if e.Keyopt? then OptsOf(g) + [e.opt] else OptsOf(g)
    ensures CountSigners(g + [e]) == CountSigners(g) + (if e.Signer? then 1 else 0)
    ensures CountKeys(g + [e]) == CountKeys(g) + (if e.Inkey? then 1 else 0)
  {
    assert (g + [e])[..|g|] == g;
  }

  lemma SingletonGroup(e: Event)
    ensures SignerOf([e]) == if e.Signer? then Some(e.file) else None
    ensures KeyOf([e]) == if e.Inkey? then Some(e.file) else None
    ensures !e.Keyopt? ==> OptsOf([e]) == []
  {
    Snoc([], e);
    assert [] + [e] == [e];
  }

  lemma {:induction false} SignerHeld(g: Group)
    ensures SignerOf(g).Some? <==> exists i :: 0 <= i < |g| && g[i].Signer?
    ensures SignerOf(g).Some? ==> exists i :: 0 <= i < |g| && g[i] == Signer(SignerOf(g).value)
  {
    if g != [] {
      var n, front := |g| - 1, g[..|g| - 1];
      SignerHeld(front);
      if g[n].Signer? {
        assert g[n] == Signer(SignerOf(g).value);
      } else if SignerOf(front).Some? {
        var i :| 0 <= i < n && front[i] == Signer(SignerOf(front).value);
        assert g[i] == Signer(SignerOf(g).value);
      } else {
        assert forall i :: 0 <= i < n ==> g[i] == front[i];
      }
    }
  }

  lemma {:induction false} KeyHeld(g: Group)
    ensures KeyOf(g).Some? <==> exists i :: 0 <= i < |g| && g[i].Inkey?
    ensures KeyOf(g).Some? ==> exists i :: 0 <= i < |g| && g[i] == Inkey(KeyOf(g).value)
  {
    if g != [] {
      var n, front := |g| - 1, g[..|g| - 1];
      KeyHeld(front);
      if g[n].Inkey? {
        assert g[n] == Inkey(KeyOf(g).value);
      } else if KeyOf(front).Some? {
        var i :| 0 <= i < n && front[i] == Inkey(KeyOf(front).value);
        assert g[i] == Inkey(KeyOf(g).value);
      } else {
        assert forall i :: 0 <= i < n ==> g[i] == front[i];
      }
    }
  }

  /** An option repeats if the group has one of its kind already; key options never do. */
  lemma RepeatsExactlyIf(g: Group, e: Event)
    ensures Repeats(g, e) <==>
            || (e.Signer? && exists i :: 0 <= i < |g| && g[i].Signer?)
            || (e.Inkey? && exists i :: 0 <= i < |g| && g[i].Inkey?)
  {
    SignerHeld(g);
    KeyHeld(g);
  }

  predicate HasSigner(g: Group) {
    exists i :: 0 <= i < |g| && g[i].Signer?
  }

  /** A command line is usable exactly if it has an option, does not begin with a key option
      and has a signer in every group. */
  lemma AcceptableExactlyIf(events: seq<Event>)
    ensures Acceptable(events) <==>
            && |events| > 0 && !events[0].Keyopt?
            && forall k :: 0 <= k < |Groups(events)| ==> HasSigner(Groups(events)[k])
  {
    forall k | 0 <= k < |Groups(events)|
      ensures SignerOf(Groups(events)[k]).Some? <==> HasSigner(Groups(events)[k])
    {
      SignerHeld(Groups(events)[k]);
    }
  }

  /** A signature is made with the group's signer, the group's key or else the signer's own,
      and the group's key options in order. */
  lemma {:induction false} JobIs(job: Job, g: Group)
    requires MadeFor(job, g)
    ensures exists i :: 0 <= i < |g| && g[i] == Signer(job.signer)
    ensures if exists i :: 0 <= i < |g| && g[i].Inkey? then exists i :: 0 <= i < |g| && g[i] == Inkey(job.key)
            else job.key == job.signer
    ensures job.options == OptsOf(g)
  {
    SignerHeld(g);
    KeyHeld(g);
  }

  /** A group ends only where the next option would repeat one of its own. */
  predicate Forced(groups: seq<Group>) {
    forall i :: 0 < i < |groups| ==> groups[i] != [] && Repeats(groups[i - 1], groups[i][0])
  }

  predicate EachAtMostOne(groups: seq<Group>) {
    forall i :: 0 <= i < |groups| ==> groups[i] != [] && AtMostOneEach(groups[i])
  }

  lemma ForcedMore(groups: seq<Group>, g: Group)
    requires Forced(groups) && g != []
    requires groups != [] ==> Repeats(groups[|groups| - 1], g[0])
    ensures Forced(groups + [g])
  {
  }

  /** The cutting of the options taken so far. */
  predicate CutOf(c: Cutting, taken: seq<Event>) {
    && Concat(c.closed) + c.open == taken
    && EachAtMostOne(c.closed) && Forced(c.closed) && AtMostOneEach(c.open)
    && (c.closed != [] ==> c.open != [] && Repeats(c.closed[|c.closed| - 1], c.open[0]))
  }

  lemma OneMore(groups: seq<Group>, g: Group)
    requires EachAtMostOne(groups) && g != [] && AtMostOneEach(g)
    ensures EachAtMostOne(groups + [g])
  {
  }

  lemma SingletonCounts(e: Event)
    ensures AtMostOneEach([e])
  {
    Snoc([], e);
    assert [] + [e] == [e];
  }

  lemma NextOpens(c: Cutting, taken: seq<Event>, e: Event)
    requires CutOf(c, taken) && Repeats(c.open, e)
    ensures CutOf(Cutting(c.closed + [c.open], [e]), taken + [e])
  {
    ConcatGrows(c.closed, c.open);
    OneMore(c.closed, c.open);
    ForcedMore(c.closed, c.open);
    SingletonCounts(e);
  }

  lemma NextExtends(c: Cutting, taken: seq<Event>, e: Event)
    requires CutOf(c, taken) && !Repeats(c.open, e)
    ensures CutOf(Cutting(c.closed, c.open + [e]), taken + [e])
  {
    NoneCounted(c.open);
    Snoc(c.open, e);
    var flat := Concat(c.closed);
    assert flat + (c.open + [e]) == flat + c.open + [e];
    assert c.open != [] ==> (c.open + [e])[0] == c.open[0];
  }

  lemma NextCut(c: Cutting, taken: seq<Event>, e: Event)
    requires CutOf(c, taken)
    ensures CutOf(Next(c, e), taken + [e])
  {
    if Repeats(c.open, e) { NextOpens(c, taken, e); } else { NextExtends(c, taken, e); }
  }

  lemma TakeOneMore(events: seq<Event>, n: nat)
    requires 0 < n <= |events|
    ensures events[..n] == events[..n - 1] + [events[n - 1]]
  {
  }

  lemma {:induction false} CutToIsCut(events: seq<Event>, n: nat, taken: seq<Event>)
    requires n <= |events| && taken == events[..n]
    ensures CutOf(CutTo(events, n), taken)
  {
    if n > 0 {
      var before := events[..n - 1];
      CutToIsCut(events, n - 1, before);
      NextCut(CutTo(events, n - 1), before, events[n - 1]);
      TakeOneMore(events, n);
    }
  }

  lemma {:induction false} AllGroups(c: Cutting, events: seq<Event>)
    requires CutOf(c, events) && events != []
    ensures var groups := c.closed + [c.open];
            Concat(groups) == events && EachAtMostOne(groups) && Forced(groups)
  {
    ConcatGrows(c.closed, c.open);
    ForcedMore(c.closed, c.open);
    OneMore(c.closed, c.open);
  }

  /** The groups are the command line cut into consecutive pieces, each with at most one
      signer and one key, and cut only where it must be. */
  lemma {:induction false} GroupsAreTheCommandLine(events: seq<Event>)
    ensures Concat(Groups(events)) == events
    ensures EachAtMostOne(Groups(events)) && Forced(Groups(events))
  {
    if events != [] {
      assert events[..|events|] == events;
      CutToIsCut(events, |events|, events);
      AllGroups(Cut(events), events);
    }
  }

  /** Finished groups stay as they are. */
  lemma {:induction false} ClosedStays(events: seq<Event>, n: nat, m: nat, i: nat)
    requires n <= m <= |events| && i < |CutTo(events, n).closed|
    ensures i < |CutTo(events, m).closed| && CutTo(events, m).closed[i] == CutTo(events, n).closed[i]
  {
    if n < m { ClosedStays(events, n, m - 1, i); }
  }

  /** An option that makes the command line unusable, whatever follows: a key option before
      any group, or an option that finishes a group without a signer. */
  predicate Fatal(c: Cutting, e: Event) {
    (e.Keyopt? && c == NOTHING) || (Repeats(c.open, e) && SignerOf(c.open).None?)
  }

  lemma {:induction false} NothingOnlyAtFirst(events: seq<Event>, n: nat)
    requires n <= |events|
    ensures CutTo(events, n) == NOTHING <==> n == 0
  {
  }

  lemma {:induction false} UnsignedClosed(events: seq<Event>, n: nat, i: nat)
    requires n <= |events| && i < |CutTo(events, n).closed| && SignerOf(CutTo(events, n).closed[i]).None?
    ensures !Acceptable(events)
  {
    ClosedStays(events, n, |events|, i);
    assert events != [] ==> Groups(events)[i] == Cut(events).closed[i];
  }

  lemma CutStep(events: seq<Event>, n: nat)
    requires n < |events|
    ensures CutTo(events, n + 1) == Next(CutTo(events, n), events[n])
  {
  }

  lemma Finishes(c: Cutting, e: Event, next: Cutting)
    requires Repeats(c.open, e) && next == Next(c, e)
    ensures |next.closed| == |c.closed| + 1 && next.closed[|c.closed|] == c.open
  {
  }

  lemma {:induction false} FatalIsFatal(events: seq<Event>, n: nat)
    requires n < |events| && Fatal(CutTo(events, n), events[n])
    ensures !Acceptable(events)
  {
    FatalAt(events, n, CutTo(events, n), events[n]);
  }

  lemma {:induction false} FatalAt(events: seq<Event>, n: nat, c: Cutting, e: Event)
    requires n < |events| && c == CutTo(events, n) && e == events[n] && Fatal(c, e)
    ensures !Acceptable(events)
  {
    if Repeats(c.open, e) && SignerOf(c.open).None? {
      CutStep(events, n);
      UnsignedFinish(events, n, c, e, CutTo(events, n + 1));
    } else {
      NothingOnlyAtFirst(events, n);
    }
  }

  lemma {:induction false} UnsignedFinish(events: seq<Event>, n: nat, c: Cutting, e: Event, next: Cutting)
    requires n < |events| && next == CutTo(events, n + 1) && next == Next(c, e)
    requires Repeats(c.open, e) && SignerOf(c.open).None?
    ensures !Acceptable(events)
  {
    Finishes(c, e, next);
    UnsignedClosed(events, n + 1, |c.closed|);
  }

  /** Either no option has been seen, or the open group has a signer or a key. */
  predicate Begun(c: Cutting) {
    c == NOTHING || SignerOf(c.open).Some? || KeyOf(c.open).Some?
  }

  lemma StaysBegun(c: Cutting, e: Event)
    requires Begun(c) && !Fatal(c, e)
    ensures Begun(Next(c, e))
  {
    Snoc(c.open, e);
    SingletonGroup(e);
  }

  // ------------------------------------------------------ key parameters

  datatype KeyParam = KeyParam(idx: nat, param: seq<string>)

  /** The parameter nodes of a group list: one for each group that has key options. */
  function ParamsOf(groups: seq<Group>): seq<KeyParam> {
    if groups == [] then []
    else ParamsOf(groups[..|groups| - 1]) + ParamAt(|groups| - 1, groups[|groups| - 1])
  }

  function ParamAt(i: nat, g: Group): seq<KeyParam> {
    if OptsOf(g) == [] then [] else [KeyParam(i, OptsOf(g))]
  }

  lemma {:induction false} ParamsGrow(groups: seq<Group>, g: Group)
    ensures ParamsOf(groups + [g]) == ParamsOf(groups) + ParamAt(|groups|, g)
  {
    assert (groups + [g])[..|groups|] == groups;
  }

  predicate Increasing(params: seq<KeyParam>, below: nat) {
    params != [] ==>
      && params[|params| - 1].idx < below
      && Increasing(params[..|params| - 1], params[|params| - 1].idx)
  }

  /** The indices increase strictly along the list. */
  lemma {:induction false} IndicesIncrease(groups: seq<Group>)
    ensures Increasing(ParamsOf(groups), |groups|)
    ensures var params := ParamsOf(groups);
            forall i, j :: 0 <= i < j < |params| ==> params[i].idx < params[j].idx < |groups|
  {
    IndicesStep(groups);
    var params := ParamsOf(groups);
    IncreasingIs(params, |groups|);
    forall i, j | 0 <= i < j < |params|
      ensures params[i].idx < params[j].idx < |groups|
    {
    }
  }

  lemma {:induction false} IncreasingIs(params: seq<KeyParam>, below: nat)
    requires Increasing(params, below)
    ensures forall i :: 0 <= i < |params| ==> params[i].idx < below
    ensures forall i, j :: 0 <= i < j < |params| ==> params[i].idx < params[j].idx
  {
    if params != [] {
      var n := |params| - 1;
      IncreasingIs(params[..n], params[n].idx);
      assert forall i :: 0 <= i < n ==> params[..n][i] == params[i];
    }
  }

  lemma {:induction false} IndicesStep(groups: seq<Group>)
    ensures Increasing(ParamsOf(groups), |groups|)
  {
    if groups != [] {
      var k := |groups| - 1;
      IndicesStep(groups[..k]);
      var front := ParamsOf(groups[..k]);
      assert (front + ParamAt(k, groups[k]))[..|front|] == front;
      assert front + [] == front;
    }
  }

  /** The first node with this index. */
  function FirstMatch(params: seq<KeyParam>, i: nat): Option<seq<string>> {
    if params == [] then None
    else if params[0].idx == i then Some(params[0].param)
    else FirstMatch(params[1..], i)
  }

  lemma {:induction false} FirstMatchGrows(a: seq<KeyParam>, b: seq<KeyParam>, i: nat)
    ensures FirstMatch(a + b, i) == if FirstMatch(a, i).Some? then FirstMatch(a, i) else FirstMatch(b, i)
  {
    if a == [] {
      assert a + b == b;
    } else {
      assert (a + b)[1..] == a[1..] + b;
      FirstMatchGrows(a[1..], b, i);
    }
  }

  lemma {:induction false} FirstMatchOne(k: nat, g: Group, i: nat)
    ensures FirstMatch(ParamAt(k, g), i) == if i == k && OptsOf(g) != [] then Some(OptsOf(g)) else None
  {
    var one := KeyParam(k, OptsOf(g));
    assert FirstMatch([one][1..], i) == None;
  }

  /** The first match gives a signer exactly the options of its own group. */
  lemma {:induction false} FirstMatchIsOwn(groups: seq<Group>, i: nat)
    ensures FirstMatch(ParamsOf(groups), i) ==
            if i < |groups| && OptsOf(groups[i]) != [] then Some(OptsOf(groups[i])) else None
  {
    if groups != [] {
      var k := |groups| - 1;
      var front, last := groups[..k], groups[k];
      assert i < k ==> front[i] == groups[i];
      FirstMatchIsOwn(front, i);
      FirstMatchGrows(ParamsOf(front), ParamAt(k, last), i);
      FirstMatchOne(k, last, i);
    }
  }

  /** An option added to the open group's node: a new node if the last one is not it. */
  lemma {:induction false} ParamsAfterOpt(front: seq<KeyParam>, n: nat, opts: seq<string>, opt: string)
    requires Increasing(front, n)
    ensures var params := front + (if opts == [] then [] else [KeyParam(n, opts)]);
            var added := front + [KeyParam(n, opts + [opt])];
            if params == [] || params[|params| - 1].idx != n
            then params + [KeyParam(n, [opt])] == added
            else params[..|params| - 1] + [KeyParam(n, params[|params| - 1].param + [opt])] == added
  {
    if opts == [] {
      assert front + [] == front && [] + [opt] == [opt];
    } else {
      assert (front + [KeyParam(n, opts)])[..|front|] == front;
    }
  }

  // --------------------------------------------------------- the program

  predicate Pairs(signer: string, key: string, g: Group) {
    && SignerOf(g) == Some(signer)
    && key == (match KeyOf(g) case Some(k) => k case None => signer)
  }

  /** The two lists have equal length and pair each finished group's signer and key. */
  predicate Pushed(groups: seq<Group>, sksigners: seq<string>, skkeys: seq<string>) {
    var k := |groups| - 1;
    && |sksigners| == |skkeys| == |groups|
    && (groups != [] ==> Pairs(sksigners[k], skkeys[k], groups[k]) && Pushed(groups[..k], sksigners[..k], skkeys[..k]))
  }

  lemma {:induction false} PushedGrows(groups: seq<Group>, sksigners: seq<string>, skkeys: seq<string>,
                    g: Group, signer: string, key: string)
    requires Pushed(groups, sksigners, skkeys) && Pairs(signer, key, g)
    ensures Pushed(groups + [g], sksigners + [signer], skkeys + [key])
  {
    assert (groups + [g])[..|groups|] == groups;
    assert (sksigners + [signer])[..|groups|] == sksigners && (skkeys + [key])[..|groups|] == skkeys;
  }

  lemma {:induction false} PushedAt(groups: seq<Group>, sksigners: seq<string>, skkeys: seq<string>, i: nat)
    requires Pushed(groups, sksigners, skkeys) && i < |groups|
    ensures Pairs(sksigners[i], skkeys[i], groups[i])
  {
    var k := |groups| - 1;
    if i < k { PushedAt(groups[..k], sksigners[..k], skkeys[..k], i); }
  }

  /** The program's variables, and what they hold after a part of the command line. */
  datatype Pending = Pending(
    signerfile: Option<string>, keyfile: Option<string>,
    sksigners: seq<string>, skkeys: seq<string>, keyParams: seq<KeyParam>)

  predicate Represents(p: Pending, c: Cutting) {
    && p.signerfile == SignerOf(c.open) && p.keyfile == KeyOf(c.open)
    && Pushed(c.closed, p.sksigners, p.skkeys)
    && p.keyParams == ParamsOf(c.closed) + ParamAt(|c.closed|, c.open)
  }

  /** A signer or key that repeats: the open group is pushed and a new one begins. */
  lemma NextGroup(p: Pending, c: Cutting, e: Event, signer: string, key: string)
    requires Represents(p, c) && Repeats(c.open, e) && Pairs(signer, key, c.open)
    ensures Represents(Pending(SignerOf([e]), KeyOf([e]), p.sksigners + [signer], p.skkeys + [key], p.keyParams),
                       Next(c, e))
  {
    SingletonGroup(e);
    ParamsGrow(c.closed, c.open);
    PushedGrows(c.closed, p.sksigners, p.skkeys, c.open, signer, key);
    assert p.keyParams + [] == p.keyParams;
  }

  /** A signer or key that does not repeat is filled in. */
  lemma SameGroup(p: Pending, c: Cutting, e: Event)
    requires Represents(p, c) && !Repeats(c.open, e) && !e.Keyopt?
    ensures Represents(Pending(if e.Signer? then Some(e.file) else p.signerfile,
                               if e.Inkey? then Some(e.file) else p.keyfile,
                               p.sksigners, p.skkeys, p.keyParams), Next(c, e))
  {
    Snoc(c.open, e);
  }

  lemma MoreOptions(p: Pending, c: Cutting, opt: string, params: seq<KeyParam>)
    requires Represents(p, c)
    requires params == ParamsOf(c.closed) + [KeyParam(|c.closed|, OptsOf(c.open) + [opt])]
    ensures Represents(Pending(p.signerfile, p.keyfile, p.sksigners, p.skkeys, params), Next(c, Keyopt(opt)))
  {
    Snoc(c.open, Keyopt(opt));
  }

  /** What -signer does to the variables. */
  function WithSigner(p: Pending, file: string): Pending {
    if p.signerfile.None? then p.(signerfile := Some(file))
    else
      var pending := p.signerfile.value;
      Pending(Some(file), None, p.sksigners + [pending],
              p.skkeys + [if p.keyfile.Some? then p.keyfile.value else pending], p.keyParams)
  }

  lemma {:induction false} SignerTaken(p: Pending, c: Cutting, file: string)
    requires Begun(c) && Represents(p, c)
    ensures Begun(Next(c, Signer(file))) && Represents(WithSigner(p, file), Next(c, Signer(file)))
  {
    var e := Signer(file);
    StaysBegun(c, e);
    SingletonGroup(e);
    if p.signerfile.Some? {
      NextGroup(p, c, e, p.signerfile.value, if p.keyfile.Some? then p.keyfile.value else p.signerfile.value);
    } else {
      SameGroup(p, c, e);
    }
  }

  /** When a key option is accepted, and what AddOption relies on. */
  lemma {:induction false} OptionTaken(p: Pending, c: Cutting, opt: string)
    requires Begun(c) && Represents(p, c)
    ensures Fatal(c, Keyopt(opt)) <==> p.signerfile.None? && p.keyfile.None?
    ensures p.signerfile.None? && p.keyfile.None? ==> p.skkeys == []
    ensures p.keyParams == ParamsOf(c.closed) +
                           (if OptsOf(c.open) == [] then [] else [KeyParam(|p.skkeys|, OptsOf(c.open))])
    ensures !Fatal(c, Keyopt(opt)) ==> Begun(Next(c, Keyopt(opt)))
    ensures |p.skkeys| == |c.closed| && Increasing(ParamsOf(c.closed), |c.closed|)
  {
    IndicesIncrease(c.closed);
    if !Fatal(c, Keyopt(opt)) { StaysBegun(c, Keyopt(opt)); }
  }

  class SignerOptions {
    var signerfile: Option<string>
    var keyfile: Option<string>
    var sksigners: seq<string>
    var skkeys: seq<string>
    var keyParams: seq<KeyParam>
    /** The command line seen so far. */
    ghost var cut: Cutting

    ghost function State(): Pending
      reads this
    {
      Pending(signerfile, keyfile, sksigners, skkeys, keyParams)
    }

    ghost predicate Valid()
      reads this
    {
      Begun(cut) && Represents(State(), cut)
    }

    constructor ()
      ensures Valid() && cut == NOTHING
    {
      signerfile, keyfile, sksigners, skkeys, keyParams, cut := None, None, [], [], [], NOTHING;
    }

    method OptSigner(file: string)
      requires Valid()
      modifies this
      ensures Valid() && cut == Next(old(cut), Signer(file))
    {
      SignerTaken(State(), cut, file);
      SetSigner(file);
      cut := Next(cut, Signer(file));
    }

    /** The pending signer, if there is one, is pushed with its key or itself. */
    method SetSigner(file: string)
      modifies this`signerfile, this`keyfile, this`sksigners, this`skkeys
      ensures State() == WithSigner(old(State()), file)
    {
      if signerfile.Some? {
        sksigners := sksigners + [signerfile.value];
        if keyfile.None? {
          keyfile := signerfile;
        }
        skkeys := skkeys + [keyfile.value];
        keyfile := None;
      }
      signerfile := Some(file);
    }

    /** Refused when a key is pending without a signer. */
    method OptInkey(file: string) returns (ok: bool)
      requires Valid()
      modifies this
      ensures ok <==> !Fatal(old(cut), Inkey(file))
      ensures ok ==> Valid() && cut == Next(old(cut), Inkey(file))
    {
      ghost var e, was := Inkey(file), State();
      SingletonGroup(e);
      if keyfile.Some? {
        if signerfile.None? {
          return false;
        }
        NextGroup(was, cut, e, signerfile.value, keyfile.value);
        sksigners := sksigners + [signerfile.value];
        signerfile := None;
        skkeys := skkeys + [keyfile.value];
      } else {
        SameGroup(was, cut, e);
      }
      StaysBegun(cut, e);
      keyfile := Some(file);
      cut := Next(cut, e);
      ok := true;
    }

    /** Into the last node if it has this index, into a new one if not. */
    method AddOption(keyidx: nat, opt: string, ghost front: seq<KeyParam>, ghost opts: seq<string>)
      requires Increasing(front, keyidx)
      requires keyParams == front + (if opts == [] then [] else [KeyParam(keyidx, opts)])
      modifies this`keyParams
      ensures keyParams == front + [KeyParam(keyidx, opts + [opt])]
    {
      ParamsAfterOpt(front, keyidx, opts, opt);
      var last := |keyParams| - 1;
      if keyParams == [] || keyParams[last].idx != keyidx {
        keyParams := keyParams + [KeyParam(keyidx, [opt])];
      } else {
        keyParams := keyParams[..last] + [KeyParam(keyidx, keyParams[last].param + [opt])];
      }
    }

    /** Refused if no group has begun. Otherwise the option goes to the open group's node. */
    method SetKeyopt(opt: string, ghost front: seq<KeyParam>, ghost opts: seq<string>) returns (ok: bool)
      requires signerfile.None? && keyfile.None? ==> skkeys == []
      requires Increasing(front, |skkeys|)
      requires keyParams == front + (if opts == [] then [] else [KeyParam(|skkeys|, opts)])
      modifies this`keyParams
      ensures ok <==> signerfile.Some? || keyfile.Some?
      ensures ok ==> keyParams == front + [KeyParam(|skkeys|, opts + [opt])]
    {
      var keyidx := -1;
      if keyfile.Some? || signerfile.Some? {
        keyidx := keyidx + 1;
      }
      keyidx := keyidx + |skkeys|;
      if keyidx < 0 {
        return false;
      }
      AddOption(keyidx, opt, front, opts);
      ok := true;
    }

    /** Refused only as the first option. */
    method OptKeyopt(opt: string) returns (ok: bool)
      requires Valid()
      modifies this
      ensures ok <==> !Fatal(old(cut), Keyopt(opt))
      ensures ok ==> Valid() && cut == Next(old(cut), Keyopt(opt))
    {
      OptionTaken(State(), cut, opt);
      ghost var was := State();
      ok := SetKeyopt(opt, ParamsOf(cut.closed), OptsOf(cut.open));
      if ok {
        MoreOptions(was, cut, opt, keyParams);
        cut := Next(cut, Keyopt(opt));
      }
    }

    method Take(e: Event) returns (ok: bool)
      requires Valid()
      modifies this
      ensures ok <==> !Fatal(old(cut), e)
      ensures ok ==> Valid() && cut == Next(old(cut), e)
    {
      ok := true;
      match e {
        case Signer(file) => OptSigner(file);
        case Inkey(file) => ok := OptInkey(file);
        case Keyopt(opt) => ok := OptKeyopt(opt);
      }
    }

    /** The option loop. */
    method TakeAll(events: seq<Event>) returns (ok: bool)
      requires Valid() && cut == NOTHING
      modifies this
      ensures ok ==> Valid() && cut == Cut(events) && (events != [] ==> !events[0].Keyopt?)
      ensures !ok ==> !Acceptable(events)
    {
      var n := 0;
      while n < |events|
        invariant 0 <= n <= |events|
        invariant Valid() && cut == CutTo(events, n) && (n > 0 ==> !events[0].Keyopt?)
      {
        ok := Take(events[n]);
        if !ok {
          FatalIsFatal(events, n);
          return;
        }
        n := n + 1;
      }
      ok := true;
    }

    /** The final signer, and the checks that there is one. */
    method Finish() returns (ok: bool)
      requires Valid()
      modifies this`sksigners, this`skkeys, this`keyfile
      ensures ok <==> SignerOf(cut.open).Some?
      ensures ok ==> var groups := cut.closed + [cut.open];
                     Pushed(groups, sksigners, skkeys) && keyParams == ParamsOf(groups)
    {
      ParamsGrow(cut.closed, cut.open);
      if keyfile.Some? && signerfile.None? {
        return false;
      }
      if signerfile.Some? {
        if keyfile.None? {
          keyfile := signerfile;
        }
        PushedGrows(cut.closed, sksigners, skkeys, cut.open, signerfile.value, keyfile.value);
        sksigners := sksigners + [signerfile.value];
        skkeys := skkeys + [keyfile.value];
      }
      ok := sksigners != [];
    }

    /** The signing loop's search for the parameters of signer `i`. */
    method FindParam(i: nat) returns (param: Option<seq<string>>)
      ensures param == FirstMatch(keyParams, i)
    {
      var k := 0;
      while k < |keyParams|
        invariant 0 <= k <= |keyParams|
        invariant FirstMatch(keyParams[k..], i) == FirstMatch(keyParams, i)
      {
        if keyParams[k].idx == i {
          return Some(keyParams[k].param);
        }
        k := k + 1;
      }
      param := None;
    }

    /** The signing loop: each signer with its key and the options of the first match. */
    method SignAll(ghost groups: seq<Group>) returns (made: seq<Job>)
      requires Pushed(groups, sksigners, skkeys) && keyParams == ParamsOf(groups)
      ensures |made| == |groups|
      ensures forall i :: 0 <= i < |made| ==> MadeFor(made[i], groups[i])
    {
      made := [];
      var i := 0;
      while i < |sksigners|
        invariant 0 <= i <= |sksigners| && |made| == i
        invariant forall j :: 0 <= j < i ==> MadeFor(made[j], groups[j])
      {
        var param := FindParam(i);
        FirstMatchIsOwn(groups, i);
        PushedAt(groups, sksigners, skkeys, i);
        made := made + [Job(sksigners[i], skkeys[i], if param.Some? then param.value else [])];
        i := i + 1;
      }
    }
  }

  lemma {:induction false} PushedMeansSigned(events: seq<Event>, sksigners: seq<string>, skkeys: seq<string>)
    requires events != [] && !events[0].Keyopt? && Pushed(Groups(events), sksigners, skkeys)
    ensures Acceptable(events)
  {
    forall i | 0 <= i < |Groups(events)|
      ensures SignerOf(Groups(events)[i]).Some?
    {
      PushedAt(Groups(events), sksigners, skkeys, i);
    }
  }

  lemma OpenMustBeSigned(events: seq<Event>)
    requires Acceptable(events)
    ensures SignerOf(Cut(events).open).Some?
  {
    assert Groups(events)[|Cut(events).closed|] == Cut(events).open;
  }

  /** The whole command: it makes signatures if and only if the command line is usable,
      one for each group, each with its own signer, key and key options. */
  method Sign(events: seq<Event>) returns (jobs: Option<seq<Job>>)
    ensures jobs.Some? <==> Acceptable(events)
    ensures jobs.Some? ==> |jobs.value| == |Groups(events)|
    ensures jobs.Some? ==> forall i :: 0 <= i < |jobs.value| ==> MadeFor(jobs.value[i], Groups(events)[i])
  {
    var options := new SignerOptions();
    var ok := options.TakeAll(events);
    if !ok {
      return None;
    }
    ok := options.Finish();
    if !ok {
      if Acceptable(events) { OpenMustBeSigned(events); }
      return None;
    }
    assert events != [];
    PushedMeansSigned(events, options.sksigners, options.skkeys);
    var made := options.SignAll(Groups(events));
    jobs := Some(made);
  }
}
