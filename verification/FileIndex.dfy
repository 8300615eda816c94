/** The client's index of listed files: the chained hash table of the first version and
    the linked list of the second, both checked against the list of insertions. */
module FileIndex {
  import opened Division

  /** A listed file: its name and its size. */
  datatype Listed = Listed(name: string, size: nat)

  const HASH_SIZE := 100

  // ------------------------------------------------- what they should mean

  /** The size given last for a name, 0 if there is none. */
  function LastSize(history: seq<Listed>, name: string): nat {
    if history == [] then 0
    else if history[|history| - 1].name == name then history[|history| - 1].size
    else LastSize(history[..|history| - 1], name)
  }

  /** The size given first for a name, 0 if there is none. */
  function FirstSize(history: seq<Listed>, name: string): nat {
    if history == [] then 0
    else if history[0].name == name then history[0].size
    else FirstSize(history[1..], name)
  }

  // --------------------------------------------------------- the hash

  /** The value of a plain (signed) char. */
  function CharValue(c: char): int {
    var b := c as int % 256;
    if b < 128 then b else b - 256
  }

  /** The 31-based polynomial of a name, without any wrap-around. */
  function Polynomial(name: string): int {
    if name == [] then 0 else 31 * Polynomial(name[..|name| - 1]) + CharValue(name[|name| - 1])
  }

  /** The bucket of a name, for a size_t of `w` values: the polynomial wrapped once. */
  function Bucket(name: string, w: int): (b: nat)
    requires w > 0
    ensures b < HASH_SIZE
  {
    Polynomial(name) % w % HASH_SIZE
  }

  /** The characters themselves: a byte from 128 on is negative, the factor is 31, and there
      are 100 buckets. */
  lemma {:induction false} HashIs(name: string, c: char, w: int)
    requires w > 0 && c as int < 256
    ensures Polynomial([]) == 0
    ensures Polynomial(name + [c]) == 31 * Polynomial(name) + (if c as int < 128 then c as int else c as int - 256)
    ensures Bucket(name, w) == Polynomial(name) % w % 100
  {
    assert (name + [c])[..|name|] == name;
  }

  /** The first and the last entry of a name. */
  lemma {:induction false} FirstSizeFound(history: seq<Listed>, name: string, k: nat)
    requires k <= |history| && (forall i :: 0 <= i < k ==> history[i].name != name)
    ensures FirstSize([], name) == 0
    ensures k < |history| && history[k].name == name ==> FirstSize(history, name) == history[k].size
    ensures k == |history| ==> FirstSize(history, name) == 0
  {
    if k > 0 { FirstSizeFound(history[1..], name, k - 1); }
  }

  lemma {:induction false} LastSizeFound(history: seq<Listed>, name: string, k: nat)
    requires k <= |history| && (forall i :: k <= i < |history| ==> history[i].name != name)
    ensures k > 0 && history[k - 1].name == name ==> LastSize(history, name) == history[k - 1].size
    ensures k == 0 ==> LastSize(history, name) == 0
  {
    if k < |history| { LastSizeFound(history[..|history| - 1], name, k); }
  }

  lemma WrapOnce(a: int, b: int, w: int)
    requires w > 0
    ensures (31 * (a % w) + b) % w == (31 * a + b) % w
  {
    var q, r := a / w, a % w;
    assert a == q * w + r;
    assert 31 * a + b == (31 * r + b) + (31 * q) * w by {
      assert 31 * (q * w) == (31 * q) * w;
    }
    AddMultiple(31 * r + b, 31 * q, w);
  }

  lemma ZeroWraps(w: int)
    requires w > 0
    ensures 0 % w == 0
  {
    DivUnique(0, w, 0, 0);
  }

  /** hash_function: every step wraps in a size_t; wrapping once at the end is the same. */
  method HashFunction(filename: string, w: int) returns (bucket: nat)
    requires w > 0
    ensures bucket == Bucket(filename, w)
  {
    var hash := 0;
    assert filename[..0] == [];
    ZeroWraps(w);
    for i := 0 to |filename|
      invariant hash == Polynomial(filename[..i]) % w
    {
      var c := CharValue(filename[i]);
      assert filename[..i + 1][..i] == filename[..i];
      WrapOnce(Polynomial(filename[..i]), c, w);
      hash := (31 * hash + c) % w;
    }
    assert filename[..|filename|] == filename;
    bucket := hash % HASH_SIZE;
  }

  // ------------------------------------- first version: chained hash table

  class Node {
    const filename: string
    const filesize: nat
    var next: Node?

    constructor (filename: string, filesize: nat)
      ensures this.filename == filename && this.filesize == filesize && next == null
    {
      this.filename, this.filesize, next := filename, filesize, null;
    }
  }

  /** The entries of `history` that belong to bucket `b`, latest first. */
  function InBucket(history: seq<Listed>, b: nat, w: int): seq<Listed>
    requires w > 0
  {
    if history == [] then []
    else
      var last := history[|history| - 1];
      (if Bucket(last.name, w) == b then [last] else []) + InBucket(history[..|history| - 1], b, w)
  }

  /** The chain of a bucket, from its head pointer on. */
  ghost predicate ChainFrom(head: Node?, nodes: seq<Node>)
    reads nodes
  {
    if nodes == [] then head == null
    else head == nodes[0] && ChainFrom(nodes[0].next, nodes[1..])
  }

  ghost function Entries(nodes: seq<Node>): (r: seq<Listed>)
    ensures |r| == |nodes|
  {
    seq(|nodes|, i requires 0 <= i < |nodes| => Listed(nodes[i].filename, nodes[i].filesize))
  }

  lemma {:induction false} InBucketGrows(history: seq<Listed>, e: Listed, b: nat, w: int)
    requires w > 0
    ensures InBucket(history + [e], b, w) ==
            if Bucket(e.name, w) == b then [e] + InBucket(history, b, w) else InBucket(history, b, w)
  {
    assert (history + [e])[..|history|] == history;
    assert [] + InBucket(history, b, w) == InBucket(history, b, w);
  }

  lemma {:induction false} BucketsGrow(history: seq<Listed>, e: Listed, w: int)
    requires w > 0
    ensures forall b :: 0 <= b < HASH_SIZE ==>
              InBucket(history + [e], b, w) ==
              if Bucket(e.name, w) == b then [e] + InBucket(history, b, w) else InBucket(history, b, w)
  {
    forall b | 0 <= b < HASH_SIZE {
      InBucketGrows(history, e, b, w);
    }
  }

  lemma EntriesPush(node: Node, nodes: seq<Node>)
    ensures Entries([node] + nodes) == [Listed(node.filename, node.filesize)] + Entries(nodes)
  {
  }

  class HashMap {
    const w: int
    const hashmap: array<Node?>
    ghost var chains: seq<seq<Node>>
    ghost var history: seq<Listed>

    /** Every bucket holds its chain of nodes. */
    ghost predicate Linked()
      reads this, hashmap, set b, i | 0 <= b < |chains| && 0 <= i < |chains[b]| :: chains[b][i]
    {
      && hashmap.Length == HASH_SIZE == |chains|
      && (forall b :: 0 <= b < HASH_SIZE ==> ChainFrom(hashmap[b], chains[b]))
    }

    ghost predicate Valid()
      reads this, hashmap, set b, i | 0 <= b < |chains| && 0 <= i < |chains[b]| :: chains[b][i]
    {
      && w > 0 && Linked()
      && (forall b :: 0 <= b < HASH_SIZE ==> Entries(chains[b]) == InBucket(history, b, w))
    }

    constructor (w: int)
      requires w > 0
      ensures Valid() && history == [] && fresh(hashmap)
    {
      this.w := w;
      hashmap := new Node?[HASH_SIZE](_ => null);
      chains := seq(HASH_SIZE, _ => []);
      history := [];
    }

    /** Put a node in front of a bucket. */
    method PushFront(index: nat, node: Node)
      requires Linked() && index < HASH_SIZE && forall b :: 0 <= b < HASH_SIZE ==> node !in chains[b]
      modifies hashmap, node, this`chains
      ensures Linked() && chains == old(chains)[index := [node] + old(chains[index])]
    {
      ghost var chain := chains[index];
      node.next := hashmap[index];
      hashmap[index] := node;
      assert ([node] + chain)[1..] == chain;
      chains := chains[index := [node] + chain];
    }

    /** insert: a new node in front of its bucket. */
    method Insert(filename: string, filesize: nat)
      requires Valid() && |filename| < 256
      modifies this, hashmap
      ensures Valid() && history == old(history) + [Listed(filename, filesize)]
    {
      var index := HashFunction(filename, w);
      var newNode := new Node(filename, filesize);
      EntriesPush(newNode, chains[index]);
      BucketsGrow(history, Listed(filename, filesize), w);
      PushFront(index, newNode);
      history := history + [Listed(filename, filesize)];
    }

    /** get_filesize: the first node of the bucket with this name, or 0. */
    method GetFilesize(filename: string) returns (size: nat)
      requires Valid()
      ensures size == LastSize(history, filename)
    {
      var index := HashFunction(filename, w);
      var current := hashmap[index];
      ghost var rest := chains[index];
      while current != null
        invariant ChainFrom(current, rest)
        invariant FirstSize(Entries(rest), filename) == FirstSize(Entries(chains[index]), filename)
        decreases |rest|
      {
        assert Entries(rest)[0] == Listed(current.filename, current.filesize);
        assert Entries(rest)[1..] == Entries(rest[1..]);
        if current.filename == filename {
          BucketDecides(history, filename, w);
          return current.filesize;
        }
        rest := rest[1..];
        current := current.next;
      }
      BucketDecides(history, filename, w);
      size := 0;
    }
  }

  /** Searching only the bucket of a name, latest entry first, finds its last size. */
  lemma {:induction false} BucketDecides(history: seq<Listed>, name: string, w: int)
    requires w > 0
    ensures FirstSize(InBucket(history, Bucket(name, w), w), name) == LastSize(history, name)
  {
    if history != [] {
      var n := |history| - 1;
      var b := Bucket(name, w);
      BucketDecides(history[..n], name, w);
      var rest := InBucket(history[..n], b, w);
      assert ([history[n]] + rest)[1..] == rest;
      assert [] + rest == rest;
    }
  }

  // ----------------------------------------- second version: linked list

  const NAME_MAX := 71

  /** strncpy of 72 bytes with the last one overwritten by NUL. */
  function Stored(name: string): string {
    if |name| <= NAME_MAX then name else name[..NAME_MAX]
  }

  /** 71 characters of a name are kept. */
  lemma StoredCut(name: string)
    ensures Stored(name) == if |name| <= 71 then name else name[..71]
  {
  }

  function AllStored(history: seq<Listed>): (r: seq<Listed>)
    ensures |r| == |history|
    ensures forall i :: 0 <= i < |r| ==> r[i] == Listed(Stored(history[i].name), history[i].size)
  {
    seq(|history|, i requires 0 <= i < |history| => Listed(Stored(history[i].name), history[i].size))
  }

  function NodeAt(nodes: seq<Node>, i: nat): Node? {
    if i < |nodes| then nodes[i] else null
  }

  class FileList {
    var start: Node?
    ghost var spine: seq<Node>
    ghost var history: seq<Listed>

    /** The nodes in order: each points to the next one, the last to nothing. */
    ghost predicate Valid()
      reads this, spine
    {
      && start == NodeAt(spine, 0)
      && (forall i :: 0 <= i < |spine| ==> spine[i].next == NodeAt(spine, i + 1))
      && (forall i, j :: 0 <= i < j < |spine| ==> spine[i] != spine[j])
      && Entries(spine) == AllStored(history)
    }

    constructor ()
      ensures Valid() && history == [] && spine == []
    {
      start, spine, history := null, [], [];
    }

    /** Walk to the last node. */
    method LastNode() returns (temp: Node)
      requires Valid() && start != null
      ensures spine != [] && temp == spine[|spine| - 1]
    {
      temp := start;
      ghost var i := 0;
      while temp.next != null
        invariant 0 <= i < |spine| && temp == spine[i]
        decreases |spine| - i
      {
        assert spine[i].next == NodeAt(spine, i + 1);
        temp := temp.next;
        i := i + 1;
      }
      assert spine[i].next == NodeAt(spine, i + 1);
    }

    /** appendNode: walk to the last node and hang the new one behind it. */
    method AppendNode(filename: string, filesize: nat)
      requires Valid()
      modifies this, spine
      ensures Valid() && history == old(history) + [Listed(filename, filesize)]
      ensures |spine| == |old(spine)| + 1 && spine[..|old(spine)|] == old(spine) && fresh(spine[|old(spine)|])
    {
      var newNode := new Node(Stored(filename), filesize);
      if start == null {
        start := newNode;
      } else {
        var temp := LastNode();
        temp.next := newNode;
      }
      spine := spine + [newNode];
      history := history + [Listed(filename, filesize)];
    }

    /** get_filesize: the first node with this name, or 0. */
    method GetFilesize(filename: string) returns (size: nat)
      requires Valid()
      ensures size == FirstSize(AllStored(history), filename)
    {
      var current := start;
      ghost var i := 0;
      assert Entries(spine)[0..] == Entries(spine);
      while current != null
        invariant 0 <= i <= |spine|
        invariant current == NodeAt(spine, i)
        invariant FirstSize(Entries(spine)[i..], filename) == FirstSize(AllStored(history), filename)
        decreases |spine| - i
      {
        assert Entries(spine)[i..][0] == Listed(current.filename, current.filesize);
        assert Entries(spine)[i..][1..] == Entries(spine)[i + 1..];
        if current.filename == filename {
          return current.filesize;
        }
        assert spine[i].next == NodeAt(spine, i + 1);
        current := current.next;
        i := i + 1;
      }
      size := 0;
    }
  }

  // ------------------------------------------- the two versions compared

  predicate DistinctNames(history: seq<Listed>) {
    forall i, j :: 0 <= i < j < |history| ==> history[i].name != history[j].name
  }

  predicate ShortNames(history: seq<Listed>) {
    forall i :: 0 <= i < |history| ==> |history[i].name| <= NAME_MAX
  }

  lemma {:induction false} LastSizeIs(history: seq<Listed>, i: nat)
    requires DistinctNames(history) && i < |history|
    ensures LastSize(history, history[i].name) == history[i].size
  {
    var n := |history| - 1;
    if i < n { LastSizeIs(history[..n], i); }
  }

  lemma {:induction false} FirstSizeIs(history: seq<Listed>, i: nat)
    requires DistinctNames(history) && i < |history|
    ensures FirstSize(history, history[i].name) == history[i].size
  {
    if i > 0 {
      assert history[1..][i - 1] == history[i];
      FirstSizeIs(history[1..], i - 1);
    }
  }

  lemma {:induction false} AbsentSize(history: seq<Listed>, name: string)
    requires forall i :: 0 <= i < |history| ==> history[i].name != name
    ensures LastSize(history, name) == 0
  {
    if history != [] { AbsentSize(history[..|history| - 1], name); }
  }

  lemma {:induction false} AbsentFirst(history: seq<Listed>, name: string)
    requires forall i :: 0 <= i < |history| ==> history[i].name != name
    ensures FirstSize(history, name) == 0
  {
    if history != [] { AbsentFirst(history[1..], name); }
  }

  /** Entry `j` is the first that the linked list stores under this name. */
  predicate FirstStored(history: seq<Listed>, name: string, j: nat) {
    && j < |history| && Stored(history[j].name) == name
    && forall k :: 0 <= k < j ==> Stored(history[k].name) != name
  }

  /** Entry `j` is the last of this name. */
  predicate LastNamed(history: seq<Listed>, name: string, j: nat) {
    && j < |history| && history[j].name == name
    && forall k :: j < k < |history| ==> history[k].name != name
  }

  lemma {:induction false} FirstIs(entries: seq<Listed>, name: string, j: nat)
    requires j < |entries| && entries[j].name == name && forall k :: 0 <= k < j ==> entries[k].name != name
    ensures FirstSize(entries, name) == entries[j].size
  {
    if j > 0 {
      assert entries[1..][j - 1] == entries[j];
      assert forall k :: 0 <= k < j - 1 ==> entries[1..][k] == entries[k + 1];
      FirstIs(entries[1..], name, j - 1);
    }
  }

  lemma {:induction false} LastIs(history: seq<Listed>, name: string, j: nat)
    requires LastNamed(history, name, j)
    ensures LastSize(history, name) == history[j].size
  {
    var n := |history| - 1;
    if j < n {
      assert forall k :: j < k < n ==> history[..n][k] == history[k];
      LastIs(history[..n], name, j);
    }
  }

  /** The linked list finds its first entry stored under a name. */
  lemma {:induction false} StoredIs(history: seq<Listed>, name: string, j: nat)
    requires FirstStored(history, name, j)
    ensures FirstSize(AllStored(history), name) == history[j].size
  {
    FirstIs(AllStored(history), name, j);
  }

  lemma {:induction false} SomeFirstStored(history: seq<Listed>, name: string, i: nat) returns (j: nat)
    requires i < |history| && Stored(history[i].name) == name
    ensures FirstStored(history, name, j) && j <= i
    decreases i
  {
    if k :| 0 <= k < i && Stored(history[k].name) == name {
      j := SomeFirstStored(history, name, k);
    } else {
      j := i;
    }
  }

  lemma OneFirstStored(history: seq<Listed>, name: string, i: nat, j: nat)
    requires FirstStored(history, name, i) && FirstStored(history, name, j)
    ensures i == j
  {
  }

  /** For any history: the two versions answer a name alike if and only if the last entry
      of the name and the first one stored under it have the same size. */
  lemma {:induction false} DuplicatesDiffer(history: seq<Listed>, name: string, i: nat, j: nat)
    requires FirstStored(history, name, i) && LastNamed(history, name, j)
    ensures LastSize(history, name) == FirstSize(AllStored(history), name) <==> history[i].size == history[j].size
  {
    StoredIs(history, name, i);
    LastIs(history, name, j);
  }

  /** A longer name is never found in the second version: only its first 71 characters are kept. */
  lemma {:induction false} LongNamesAreLost(history: seq<Listed>, name: string)
    requires |name| > NAME_MAX
    ensures FirstSize(AllStored(history), name) == 0
  {
    AbsentFirst(AllStored(history), name);
  }

  /** With distinct names, the list gives an entry's size if and only if the name is not
      longer than 71 characters (or the size is 0) and the first entry that is cut to this
      name, which may be a longer one, has that size. */
  lemma FoundExactlyIf(history: seq<Listed>, i: nat)
    requires DistinctNames(history) && i < |history|
    ensures var name := history[i].name;
            FirstSize(AllStored(history), name) == history[i].size <==>
            if |name| > NAME_MAX then history[i].size == 0
            else forall j: nat :: FirstStored(history, name, j) ==> history[j].size == history[i].size
  {
    var name := history[i].name;
    if |name| > NAME_MAX {
      LongNamesAreLost(history, name);
    } else {
      var first := SomeFirstStored(history, name, i);
      StoredIs(history, name, first);
      forall j: nat | FirstStored(history, name, j)
        ensures j == first
      {
        OneFirstStored(history, name, j, first);
      }
    }
  }

  /** With distinct names of at most 71 characters, the hash table and the linked list
      answer every query alike. */
  lemma {:induction false} VersionsAgree(history: seq<Listed>, name: string)
    requires DistinctNames(history) && ShortNames(history)
    ensures LastSize(history, name) == FirstSize(AllStored(history), name)
  {
    assert AllStored(history) == history;
    if i :| 0 <= i < |history| && history[i].name == name {
      LastSizeIs(history, i);
      FirstSizeIs(history, i);
    } else {
      AbsentSize(history, name);
      AbsentFirst(history, name);
    }
  }

  /** For distinct names of files that are not empty, the two versions answer every query
      alike if and only if no name is longer than 71 characters. */
  lemma {:induction false} VersionsAgreeExactlyIf(history: seq<Listed>)
    requires DistinctNames(history) && forall i :: 0 <= i < |history| ==> history[i].size > 0
    ensures (forall name :: LastSize(history, name) == FirstSize(AllStored(history), name)) <==> ShortNames(history)
  {
    if ShortNames(history) {
      forall name
        ensures LastSize(history, name) == FirstSize(AllStored(history), name)
      {
        VersionsAgree(history, name);
      }
    } else {
      var i :| 0 <= i < |history| && |history[i].name| > NAME_MAX;
      LongNamesAreLost(history, history[i].name);
      LastSizeIs(history, i);
    }
  }

  /** A short name can be lost as well: it is answered with the size of an earlier, longer
      name that is cut to it. */
  lemma {:induction false} ShadowedByLongName(p: string, x: char, a: nat, b: nat)
    requires |p| == NAME_MAX
    ensures var history := [Listed(p + [x], a), Listed(p, b)];
            DistinctNames(history) && LastSize(history, p) == b && FirstSize(AllStored(history), p) == a
  {
    var history := [Listed(p + [x], a), Listed(p, b)];
    assert (p + [x])[..NAME_MAX] == p;
    assert |p + [x]| != |p|;
    StoredIs(history, p, 0);
    LastIs(history, p, 1);
  }
}
