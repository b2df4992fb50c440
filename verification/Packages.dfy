/** The tables of dpkg: interned strings whose index is their identity, and packages with at most
    one node per name and equivalent version. */
module Packages {
  import opened Bits
  import opened Factor
  import opened Probing
  import opened Versions

  // ----- make_hash -----

  /** The running sum of `make_hash` over the first n bytes, in a 64-bit unsigned. */
  function HashSum(key: seq<byte>, n: nat): nat
    requires n <= |key|
  {
    if n <= 1 then At(key, 0)
    else
      var c: nat, p: nat := key[n - 1], key[n - 2];
      (HashSum(key, n - 1) + (c + p) * Pow2(c * (n - 1) % 24)) % TWO64
  }

  function Start(key: seq<byte>, prime: nat): (r: nat)
    requires prime > 1
    ensures r < prime
  {
    HashSum(key, |key|) % TWO32 % prime
  }

  function Decrement(key: seq<byte>, prime: nat): (r: nat)
    requires prime > 1
    ensures 1 <= r < prime
  {
    1 + HashSum(key, |key|) % (prime - 1)
  }

  method MakeHash(key: seq<byte>, prime: nat) returns (start: nat, decrement: nat)
    requires prime > 1
    ensures start == Start(key, prime) && decrement == Decrement(key, prime)
  {
    hide Pow2;
    var hash: nat, len := At(key, 0), |key|;
    for i := 1 to if len < 1 then 1 else len
      invariant hash == HashSum(key, if i <= len then i else len)
    {
      var c: nat, p: nat := key[i], key[i - 1];
      hash := (hash + (c + p) * Pow2(c * i % 24)) % TWO64;
    }
    start, decrement := hash % TWO32 % prime, 1 + hash % (prime - 1);
  }

  /** The address of probe k for a key. */
  function KeyProbe(key: seq<byte>, prime: nat, k: nat): (r: nat)
    requires prime > 1
    ensures r < prime
  {
    Probe(Start(key, prime), Decrement(key, prime), prime, k)
  }

  // ----- Searches -----

  /** The first k probes for the key met no slot at which the search may end. */
  ghost predicate Passed(ends: seq<bool>, key: seq<byte>, prime: nat, k: nat)
    requires 1 < prime <= |ends|
  {
    forall j :: 0 <= j < k ==> !ends[KeyProbe(key, prime, j)]
  }

  /** Where the search for the key ends, after k probes. */
  ghost predicate EndsAt(ends: seq<bool>, key: seq<byte>, prime: nat, a: nat, k: nat) {
    1 < prime <= |ends| && k < prime && a == KeyProbe(key, prime, k) && Passed(ends, key, prime, k) && ends[a]
  }

  /** If there is a slot at which it may end, a search does end before it has made as many probes
      as there are slots. */
  lemma StopsInTime(ends: seq<bool>, key: seq<byte>, prime: nat, k: nat, w: nat)
    requires Prime(prime) && 1 < prime <= |ends| && Passed(ends, key, prime, k) && w < prime && ends[w]
    ensures k < prime
  {
    hide Prime, Probe, Start, Decrement;
    var n := EveryAddress(Start(key, prime), Decrement(key, prime), prime, w);
    assert KeyProbe(key, prime, n) == w;
  }

  lemma OneEnd(ends: seq<bool>, key: seq<byte>, prime: nat, a: nat, i: nat, b: nat, j: nat)
    requires EndsAt(ends, key, prime, a, i) && EndsAt(ends, key, prime, b, j)
    ensures a == b
  {
    hide KeyProbe;
  }

  /** Every slot that a search passes over stays closed to it. */
  lemma StillEnds(ends: seq<bool>, ends': seq<bool>, key: seq<byte>, prime: nat, a: nat, k: nat)
    requires EndsAt(ends, key, prime, a, k) && |ends'| == |ends| && ends'[a]
    requires forall b :: 0 <= b < prime && !ends[b] ==> !ends'[b]
    ensures EndsAt(ends', key, prime, a, k)
  {
    hide KeyProbe;
  }

  // ----- Interned strings -----

  type Names = seq<Option<seq<byte>>>

  /** The slots at which a search for the key ends: free ones, and the one that holds it. */
  ghost function NameEnds(t: Names, key: seq<byte>): (r: seq<bool>)
    ensures |r| == |t|
  {
    seq(|t|, a requires 0 <= a < |t| => t[a].None? || t[a].value == key)
  }

  /** A search for the string at a finds it there. */
  ghost predicate Findable(t: Names, a: nat) {
    a < |t| && t[a].Some? && IsString(t[a].value) && exists k :: EndsAt(NameEnds(t, t[a].value), t[a].value, NAME_HASH_PRIME, a, k)
  }

  ghost predicate NamesOk(t: Names) {
    |t| == NAME_HASH_PRIME + 1 && forall a :: 0 <= a < NAME_HASH_PRIME && t[a].Some? ==> Findable(t, a)
  }

  /** Main result: an index identifies its string, and a string its index. */
  lemma IndexIsIdentity(t: Names, a: nat, b: nat)
    requires NamesOk(t) && a < NAME_HASH_PRIME && b < NAME_HASH_PRIME && t[a].Some? && t[b].Some?
    ensures a == b <==> t[a].value == t[b].value
  {
    hide EndsAt, NameEnds;
    if t[a].value == t[b].value {
      var key := t[a].value;
      var ends := NameEnds(t, key);
      assert Findable(t, a) && Findable(t, b);
      var i :| EndsAt(ends, key, NAME_HASH_PRIME, a, i);
      var j :| EndsAt(ends, key, NAME_HASH_PRIME, b, j);
      OneEnd(ends, key, NAME_HASH_PRIME, a, i, b, j);
    }
  }

  /** Storing a new string where the search for it ended leaves all others where they are. */
  lemma StoreName(t: Names, key: seq<byte>, a: nat, k: nat)
    requires NamesOk(t) && IsString(key) && EndsAt(NameEnds(t, key), key, NAME_HASH_PRIME, a, k) && t[a].None?
    ensures NamesOk(t[a := Some(key)])
  {
    hide Passed, KeyProbe, IsString;
    var t' := t[a := Some(key)];
    forall b | 0 <= b < NAME_HASH_PRIME && t'[b].Some? ensures Findable(t', b) {
      var s := t'[b].value;
      var ends, ends' := NameEnds(t, s), NameEnds(t', s);
      if b == a {
        StillEnds(ends, ends', key, NAME_HASH_PRIME, a, k);
      } else {
        assert Findable(t, b);
        var i :| EndsAt(ends, s, NAME_HASH_PRIME, b, i);
        StillEnds(ends, ends', s, NAME_HASH_PRIME, b, i);
      }
    }
  }

  method SearchNameHashtable(names: array<Option<seq<byte>>>, key: seq<byte>) returns (address: nat)
    requires NamesOk(names[..]) && IsString(key)
    requires exists w :: 0 <= w < NAME_HASH_PRIME && NameEnds(names[..], key)[w]
    modifies names
    ensures NamesOk(names[..]) && address < NAME_HASH_PRIME && names[address] == Some(key)
    ensures old(names[address]).Some? ==> old(names[address]) == Some(key)
    ensures names[..] == old(names[..])[address := Some(key)]
  {
    hide NameEnds, Passed, KeyProbe, Prime, NamesOk, IsString, Start, Decrement;
    var decrement;
    address, decrement := MakeHash(key, NAME_HASH_PRIME);
    ghost var t, k := names[..], 0;
    ghost var ends := NameEnds(t, key);
    NameSize(t);
    ghost var w :| 0 <= w < NAME_HASH_PRIME && ends[w];
    NamePrime();
    NoProbe(ends, key, NAME_HASH_PRIME);
    while names[address].Some?
      invariant names[..] == t && address == KeyProbe(key, NAME_HASH_PRIME, k) && Passed(ends, key, NAME_HASH_PRIME, k)
      decreases NAME_HASH_PRIME - k
    {
      NameEndsAt(t, key, address);
      if names[address].value == key {
        assert t == t[address := Some(key)];
        return;
      }
      MoreProbes(ends, key, NAME_HASH_PRIME, k);
      StopsInTime(ends, key, NAME_HASH_PRIME, k + 1, w);
      address := NextProbe(address, decrement, NAME_HASH_PRIME);
      k := k + 1;
    }
    NameEndsAt(t, key, address);
    StopsInTime(ends, key, NAME_HASH_PRIME, k, w);
    StoreName(t, key, address, k);
    names[address] := Some(key);
    assert names[..] == t[address := Some(key)];
  }

  lemma NameSize(t: Names)
    requires NamesOk(t)
    ensures |t| == NAME_HASH_PRIME + 1
  {
  }

  lemma NameEndsAt(t: Names, key: seq<byte>, a: nat)
    requires a < |t|
    ensures NameEnds(t, key)[a] == (t[a].None? || t[a].value == key)
  {
  }

  lemma NoProbe(ends: seq<bool>, key: seq<byte>, prime: nat)
    requires 1 < prime <= |ends|
    ensures Passed(ends, key, prime, 0) && KeyProbe(key, prime, 0) == Start(key, prime)
  {
  }

  lemma MoreProbes(ends: seq<bool>, key: seq<byte>, prime: nat, k: nat)
    requires 1 < prime <= |ends| && Passed(ends, key, prime, k) && !ends[KeyProbe(key, prime, k)]
    ensures Passed(ends, key, prime, k + 1)
    ensures KeyProbe(key, prime, k + 1) == NextProbe(KeyProbe(key, prime, k), Decrement(key, prime), prime)
  {
    hide Start, Decrement;
  }

  // ----- Packages -----

  /** A package: the indices of its name and its version. */
  datatype Node = Node(name: nat, version: nat)

  ghost predicate HasString(names: Names, i: nat) {
    i < |names| && i < NAME_HASH_PRIME && names[i].Some? && IsString(names[i].value)
  }

  function StringOf(names: Names, i: nat): seq<byte> {
    if i < |names| && names[i].Some? then names[i].value else []
  }

  /** What a search accepts: the name, with a version that the operator admits. */
  ghost predicate Accepts(names: Names, node: Node, name: nat, version: nat, op: Operator) {
    node.name == name && Holds(op, StringOf(names, node.version), StringOf(names, version))
  }

  ghost function PackageEnds(t: seq<Option<Node>>, names: Names, name: nat, version: nat, op: Operator): (r: seq<bool>)
    ensures |r| == |t|
  {
    seq(|t|, a requires 0 <= a < |t| => t[a].None? || Accepts(names, t[a].value, name, version, op))
  }

  /** A search for the package at a, with an equal version, finds it there. */
  ghost predicate Registered(t: seq<Option<Node>>, names: Names, a: nat) {
    && a < |t| && t[a].Some? && HasString(names, t[a].value.name) && HasString(names, t[a].value.version)
    && exists k :: EndsAt(PackageEnds(t, names, t[a].value.name, t[a].value.version, VerEqual), StringOf(names, t[a].value.name), PACKAGE_HASH_PRIME, a, k)
  }

  ghost predicate PackagesOk(t: seq<Option<Node>>, names: Names) {
    |t| == PACKAGE_HASH_PRIME + 1 && forall a :: 0 <= a < PACKAGE_HASH_PRIME && t[a].Some? ==> Registered(t, names, a)
  }

  /** Packages with the same name and equivalent versions are accepted together. */
  lemma SameEnds(t: seq<Option<Node>>, names: Names, name: nat, v: nat, v': nat)
    requires Versus(StringOf(names, v), StringOf(names, v')) == 0
    ensures PackageEnds(t, names, name, v, VerEqual) == PackageEnds(t, names, name, v', VerEqual)
  {
    hide Versus;
    forall x: nat ensures Accepts(names, Node(name, x), name, v, VerEqual) == Accepts(names, Node(name, x), name, v', VerEqual) {
      SameAcceptance(StringOf(names, x), StringOf(names, v), StringOf(names, v'));
    }
    var e, e' := PackageEnds(t, names, name, v, VerEqual), PackageEnds(t, names, name, v', VerEqual);
    forall a | 0 <= a < |t| ensures e[a] == e'[a] {
      if t[a].Some? {
        assert t[a].value.name == name ==> t[a].value == Node(name, t[a].value.version);
      }
    }
  }

  lemma SameAcceptance(x: seq<byte>, v: seq<byte>, v': seq<byte>)
    requires Versus(v, v') == 0
    ensures Versus(x, v) == 0 <==> Versus(x, v') == 0
  {
    hide Versus;
    VersusFlip(v, v');
    if Versus(x, v) == 0 { EquivalentAlike(x, v, v'); }
    if Versus(x, v') == 0 { EquivalentAlike(x, v', v); }
  }

  /** Main result: there is at most one node for a name and a class of equivalent versions. */
  lemma OneNode(t: seq<Option<Node>>, names: Names, a: nat, b: nat)
    requires PackagesOk(t, names) && a < PACKAGE_HASH_PRIME && b < PACKAGE_HASH_PRIME && t[a].Some? && t[b].Some?
    requires t[a].value.name == t[b].value.name
    requires Versus(StringOf(names, t[a].value.version), StringOf(names, t[b].value.version)) == 0
    ensures a == b
  {
    hide EndsAt, PackageEnds, Versus, HasString;
    var m, n := t[a].value, t[b].value;
    SameEnds(t, names, m.name, m.version, n.version);
    var ends, key := PackageEnds(t, names, m.name, m.version, VerEqual), StringOf(names, m.name);
    assert Registered(t, names, a) && Registered(t, names, b);
    var i :| EndsAt(ends, key, PACKAGE_HASH_PRIME, a, i);
    var j :| EndsAt(ends, key, PACKAGE_HASH_PRIME, b, j);
    OneEnd(ends, key, PACKAGE_HASH_PRIME, a, i, b, j);
  }

  /** The string table may grow: what has been registered stays so. */
  lemma NamesMayGrow(t: seq<Option<Node>>, names: Names, names': Names)
    requires PackagesOk(t, names) && |names'| == |names| && forall i :: 0 <= i < |names| && names[i].Some? ==> names'[i] == names[i]
    ensures PackagesOk(t, names')
  {
    hide EndsAt, Versus, IsString;
    forall a | 0 <= a < PACKAGE_HASH_PRIME && t[a].Some? ensures Registered(t, names', a) {
      assert Registered(t, names, a);
      var n := t[a].value;
      var ends, ends' := PackageEnds(t, names, n.name, n.version, VerEqual), PackageEnds(t, names', n.name, n.version, VerEqual);
      var k :| EndsAt(ends, StringOf(names, n.name), PACKAGE_HASH_PRIME, a, k);
      forall b | 0 <= b < PACKAGE_HASH_PRIME ensures ends'[b] == ends[b] {
        if t[b].Some? { assert Registered(t, names, b); }
      }
      GrownEnds(ends, ends', StringOf(names, n.name), a, k);
      assert StringOf(names', n.name) == StringOf(names, n.name);
    }
  }

  lemma GrownEnds(ends: seq<bool>, ends': seq<bool>, key: seq<byte>, a: nat, k: nat)
    requires EndsAt(ends, key, PACKAGE_HASH_PRIME, a, k) && |ends'| == |ends| && forall b :: 0 <= b < PACKAGE_HASH_PRIME ==> ends'[b] == ends[b]
    ensures EndsAt(ends', key, PACKAGE_HASH_PRIME, a, k)
  {
    hide KeyProbe;
  }

  method SearchPackageHashtable(packages: array<Option<Node>>, names: array<Option<seq<byte>>>, name: nat, version: nat, op: Operator)
    returns (address: nat, ghost k: nat)
    requires PackagesOk(packages[..], names[..]) && HasString(names[..], name) && HasString(names[..], version)
    requires exists w :: 0 <= w < PACKAGE_HASH_PRIME && PackageEnds(packages[..], names[..], name, version, op)[w]
    ensures EndsAt(PackageEnds(packages[..], names[..], name, version, op), StringOf(names[..], name), PACKAGE_HASH_PRIME, address, k)
    ensures address < PACKAGE_HASH_PRIME
    ensures packages[address].Some? ==> packages[address].value.name == name
                                        && Holds(op, StringOf(names[..], packages[address].value.version), StringOf(names[..], version))
  {
    hide PackageEnds, Passed, KeyProbe, Prime, IsString, PackagesOk, Start, Decrement, Accepts;
    ghost var t, ns := packages[..], names[..];
    ghost var ends := PackageEnds(t, ns, name, version, op);
    PackageSize(t, ns);
    ghost var w :| 0 <= w < PACKAGE_HASH_PRIME && ends[w];
    var key := names[name].value;
    var decrement;
    address, decrement := MakeHash(key, PACKAGE_HASH_PRIME);
    k := 0;
    PackagePrime();
    NoProbe(ends, key, PACKAGE_HASH_PRIME);
    while packages[address].Some?
      invariant address == KeyProbe(key, PACKAGE_HASH_PRIME, k) && Passed(ends, key, PACKAGE_HASH_PRIME, k)
      decreases PACKAGE_HASH_PRIME - k
    {
      PackageEndsAt(t, ns, name, version, op, address);
      NodeStrings(t, ns, address);
      StopsInTime(ends, key, PACKAGE_HASH_PRIME, k, w);
      var node := packages[address].value;
      if node.name == name {
        var ok := TestVersion(names[node.version].value, names[version].value, op);
        if op == VerAny || ok {
          return;
        }
      }
      MoreProbes(ends, key, PACKAGE_HASH_PRIME, k);
      StopsInTime(ends, key, PACKAGE_HASH_PRIME, k + 1, w);
      address := NextProbe(address, decrement, PACKAGE_HASH_PRIME);
      k := k + 1;
    }
    PackageEndsAt(t, ns, name, version, op, address);
    StopsInTime(ends, key, PACKAGE_HASH_PRIME, k, w);
  }

  lemma PackageSize(t: seq<Option<Node>>, names: Names)
    requires PackagesOk(t, names)
    ensures |t| == PACKAGE_HASH_PRIME + 1
  {
  }

  lemma NodeStrings(t: seq<Option<Node>>, names: Names, a: nat)
    requires PackagesOk(t, names) && a < PACKAGE_HASH_PRIME && t[a].Some?
    ensures HasString(names, t[a].value.name) && HasString(names, t[a].value.version)
  {
    assert Registered(t, names, a);
  }

  lemma PackageEndsAt(t: seq<Option<Node>>, names: Names, name: nat, version: nat, op: Operator, a: nat)
    requires a < |t|
    ensures PackageEnds(t, names, name, version, op)[a] ==
            (t[a].None? || (t[a].value.name == name && Holds(op, StringOf(names, t[a].value.version), StringOf(names, version))))
  {
  }

  /** The node at a, if any, is replaced by one with the same name and an equivalent version. */
  lemma StorePackage(t: seq<Option<Node>>, names: Names, node: Node, a: nat, k: nat)
    requires PackagesOk(t, names) && HasString(names, node.name) && HasString(names, node.version)
    requires EndsAt(PackageEnds(t, names, node.name, node.version, VerEqual), StringOf(names, node.name), PACKAGE_HASH_PRIME, a, k)
    ensures a < |t| && PackagesOk(t[a := Some(node)], names)
  {
    hide Passed, KeyProbe, IsString, Versus;
    var t' := t[a := Some(node)];
    forall b | 0 <= b < PACKAGE_HASH_PRIME && t'[b].Some? ensures Registered(t', names, b) {
      var n := t'[b].value;
      var key := StringOf(names, n.name);
      var ends, ends' := PackageEnds(t, names, n.name, n.version, VerEqual), PackageEnds(t', names, n.name, n.version, VerEqual);
      VersusSame(StringOf(names, node.version));
      if b == a {
        StillEnds(ends, ends', key, PACKAGE_HASH_PRIME, a, k);
      } else {
        assert Registered(t, names, b);
        var i :| EndsAt(ends, key, PACKAGE_HASH_PRIME, b, i);
        if !ends[a] { ClosedStays(t, names, node, a, n); }
        StillEnds(ends, ends', key, PACKAGE_HASH_PRIME, b, i);
      }
    }
  }

  /** A search that passed over the old node passes over the new one. */
  lemma ClosedStays(t: seq<Option<Node>>, names: Names, node: Node, a: nat, n: Node)
    requires a < |t| && PackageEnds(t, names, node.name, node.version, VerEqual)[a]
    requires !PackageEnds(t, names, n.name, n.version, VerEqual)[a]
    ensures !Accepts(names, node, n.name, n.version, VerEqual)
  {
    hide Versus;
    var o := t[a].value;
    var x, y, z := StringOf(names, o.version), StringOf(names, node.version), StringOf(names, n.version);
    if Versus(y, z) == 0 { EquivalentAlike(x, y, z); }
  }

  /** The end of `fill_package_struct`: the new node takes the place of an equal one. */
  method AddPackage(packages: array<Option<Node>>, names: array<Option<seq<byte>>>, node: Node) returns (num: nat)
    requires PackagesOk(packages[..], names[..]) && HasString(names[..], node.name) && HasString(names[..], node.version)
    requires exists w :: 0 <= w < PACKAGE_HASH_PRIME && PackageEnds(packages[..], names[..], node.name, node.version, VerEqual)[w]
    requires packages as object != names
    modifies packages
    ensures num < PACKAGE_HASH_PRIME && packages[num] == Some(node) && PackagesOk(packages[..], names[..])
    ensures packages[..] == old(packages[..])[num := Some(node)]
    ensures old(packages[num]).Some? ==> Accepts(names[..], old(packages[num]).value, node.name, node.version, VerEqual)
  {
    hide PackagesOk, HasString, EndsAt;
    ghost var t, ns := packages[..], names[..];
    ghost var k;
    num, k := SearchPackageHashtable(packages, names, node.name, node.version, VerEqual);
    StorePackage(t, ns, node, num, k);
    EndIsOpen(PackageEnds(t, ns, node.name, node.version, VerEqual), StringOf(ns, node.name), num, k);
    packages[num] := Some(node);
    assert packages[..] == t[num := Some(node)] && names[..] == ns;
  }

  lemma EndIsOpen(ends: seq<bool>, key: seq<byte>, a: nat, k: nat)
    requires EndsAt(ends, key, PACKAGE_HASH_PRIME, a, k)
    ensures a < |ends| && ends[a]
  {
  }

  // ----- Package states -----

  /** The state of a package: the address of its node and the index of the status string. */
  datatype StatusNode = StatusNode(package: nat, status: nat)

  /** The name of the package that a state belongs to. */
  function PackageName(packages: seq<Option<Node>>, names: Names, n: StatusNode): seq<byte> {
    if n.package < |packages| && packages[n.package].Some? then StringOf(names, packages[n.package].value.name) else []
  }

  ghost predicate StatusOk(t: seq<Option<StatusNode>>, packages: seq<Option<Node>>) {
    |t| == STATUS_HASH_PRIME + 1
    && forall a :: 0 <= a < STATUS_HASH_PRIME && t[a].Some? ==> t[a].value.package < PACKAGE_HASH_PRIME <= |packages| && packages[t[a].value.package].Some?
  }

  ghost function StatusEnds(t: seq<Option<StatusNode>>, packages: seq<Option<Node>>, names: Names, key: seq<byte>): (r: seq<bool>)
    ensures |r| == |t|
  {
    seq(|t|, a requires 0 <= a < |t| => t[a].None? || PackageName(packages, names, t[a].value) == key)
  }

  /** Finds the state of the package with this name, or the slot where it would go. */
  method SearchStatusHashtable(statuses: array<Option<StatusNode>>, packages: array<Option<Node>>, names: array<Option<seq<byte>>>, key: seq<byte>)
    returns (address: nat, ghost k: nat)
    requires StatusOk(statuses[..], packages[..]) && PackagesOk(packages[..], names[..])
    requires exists w :: 0 <= w < STATUS_HASH_PRIME && StatusEnds(statuses[..], packages[..], names[..], key)[w]
    ensures EndsAt(StatusEnds(statuses[..], packages[..], names[..], key), key, STATUS_HASH_PRIME, address, k)
    ensures address < STATUS_HASH_PRIME && (statuses[address].Some? ==> PackageName(packages[..], names[..], statuses[address].value) == key)
  {
    hide StatusEnds, Passed, KeyProbe, Prime, PackagesOk, Start, Decrement;
    ghost var t, ps, ns := statuses[..], packages[..], names[..];
    ghost var ends := StatusEnds(t, ps, ns, key);
    ghost var w :| 0 <= w < STATUS_HASH_PRIME && ends[w];
    var decrement;
    address, decrement := MakeHash(key, STATUS_HASH_PRIME);
    k := 0;
    StatusPrime();
    NoProbe(ends, key, STATUS_HASH_PRIME);
    while statuses[address].Some?
      invariant address == KeyProbe(key, STATUS_HASH_PRIME, k) && Passed(ends, key, STATUS_HASH_PRIME, k)
      decreases STATUS_HASH_PRIME - k
    {
      StatusEndsAt(t, ps, ns, key, address);
      StopsInTime(ends, key, STATUS_HASH_PRIME, k, w);
      var package := statuses[address].value.package;
      NodeStrings(ps, ns, package);
      if key == names[packages[package].value.name].value {
        break;
      }
      MoreProbes(ends, key, STATUS_HASH_PRIME, k);
      StopsInTime(ends, key, STATUS_HASH_PRIME, k + 1, w);
      address := NextProbe(address, decrement, STATUS_HASH_PRIME);
      k := k + 1;
    }
    StatusEndsAt(t, ps, ns, key, address);
    StopsInTime(ends, key, STATUS_HASH_PRIME, k, w);
  }

  lemma StatusEndsAt(t: seq<Option<StatusNode>>, packages: seq<Option<Node>>, names: Names, key: seq<byte>, a: nat)
    requires a < |t|
    ensures StatusEnds(t, packages, names, key)[a] == (t[a].None? || PackageName(packages, names, t[a].value) == key)
  {
  }
}
