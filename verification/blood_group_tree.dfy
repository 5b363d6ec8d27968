/** The blood-group index: a three-level tree root -> major letter -> full
    group string, with donors filed at the third level in arrival order, and
    the whole-tree depth-first lookup that collects every node whose group
    equals the query. */
module BloodGroupTree {
  import opened Wrappers
  import opened Donors

  /** A tree node. `children` plays the role of an insertion-ordered
      dictionary keyed by the children's `group`. */
  datatype Node = Node(group: string, children: seq<Node>, donors: seq<Donor>)

  /** The empty tree the build starts from. */
  const Root: Node := Node("root", [], [])

  /** A group string the build files somewhere: its first character is O, A or B. */
  predicate IsIndexed(g: string) {
    |g| > 0 && (g[0] == 'O' || g[0] == 'A' || g[0] == 'B')
  }

  predicate StartsWith(s: string, prefix: string) {
    |prefix| <= |s| && s[..|prefix|] == prefix
  }

  /** The second-level node a group string is filed under, following the
      order of the build's tests. "AB-" starts with A and is not "AB+", so it
      lands under "A"; only "AB+" reaches the "AB" node. */
  function MajorOf(g: string): (r: Option<string>)
    ensures r.Some? <==> IsIndexed(g)
    ensures r.Some? ==> r.value in {"O", "A", "B", "AB"} && StartsWith(g, r.value)
    ensures r == Some("AB") <==> g == "AB+"
  {
    if StartsWith(g, "O") then Some("O")
    else if StartsWith(g, "A") && g != "AB+" then Some("A")
    else if StartsWith(g, "B") && g != "AB+" then Some("B")
    else if StartsWith(g, "AB") then Some("AB")
    else None
  }

  /** Whether some sibling carries the key `g`. */
  predicate HasKey(ns: seq<Node>, g: string)
    decreases |ns|
  {
    |ns| > 0 && (ns[0].group == g || HasKey(ns[1..], g))
  }

  /** Appends `d` to the child keyed `g`, creating that child at the end when
      it does not exist yet. */
  function AddLeafDonor(leaves: seq<Node>, g: string, d: Donor): (r: seq<Node>)
    ensures forall h :: HasKey(r, h) <==> HasKey(leaves, h) || h == g
    decreases |leaves|
  {
    if |leaves| == 0 then [Node(g, [], [d])]
    else if leaves[0].group == g then [leaves[0].(donors := leaves[0].donors + [d])] + leaves[1..]
    else
      var rest := AddLeafDonor(leaves[1..], g, d);
      assert ([leaves[0]] + rest)[1..] == rest;
      [leaves[0]] + rest
  }

  /** Files `d` under the leaf `g` of the major node `m`, creating either
      node when it is missing. */
  function AddMajorDonor(majors: seq<Node>, m: string, g: string, d: Donor): seq<Node>
  {
    if |majors| == 0 then [Node(m, AddLeafDonor([], g, d), [])]
    else if majors[0].group == m then
      [majors[0].(children := AddLeafDonor(majors[0].children, g, d))] + majors[1..]
    else [majors[0]] + AddMajorDonor(majors[1..], m, g, d)
  }

  /** One step of the build: a donor whose group is not indexed is dropped. */
  function FileDonor(t: Node, d: Donor): Node {
    match MajorOf(d.profile.bloodGroup)
    case None => t
    case Some(m) => t.(children := AddMajorDonor(t.children, m, d.profile.bloodGroup, d))
  }

  function BuildFrom(t: Node, ds: seq<Donor>): Node
    decreases |ds|
  {
    if |ds| == 0 then t else BuildFrom(FileDonor(t, ds[0]), ds[1..])
  }

  /** Builds the tree from the donors in input order. The result is well
      shaped, and looking any group up in it gives the donors of that group
      in input order, provided the group is indexed. */
  function Build(ds: seq<Donor>): (t: Node)
    ensures WellShaped(t)
    ensures forall q :: Lookup(t, q) == Matching(ds, q)
  {
    BuildLooksUp(ds);
    BuildFrom(Root, ds)
  }

  lemma BuildLooksUp(ds: seq<Donor>)
    ensures WellShaped(BuildFrom(Root, ds))
    ensures forall q :: Lookup(BuildFrom(Root, ds), q) == Matching(ds, q)
  {
    forall q ensures Lookup(BuildFrom(Root, ds), q) == Matching(ds, q) {
      BuildFromCollects(Root, ds, q);
    }
    BuildFromCollects(Root, ds, "");
  }

  /** Depth-first walk: the node's own donors when its group equals `q`,
      then each child in insertion order. */
  function Collect(n: Node, q: string): seq<Donor>
    decreases n
  {
    (if n.group == q then n.donors else []) + CollectAll(n.children, q)
  }

  function CollectAll(ns: seq<Node>, q: string): seq<Donor>
    decreases ns
  {
    if |ns| == 0 then [] else Collect(ns[0], q) + CollectAll(ns[1..], q)
  }

  /** The search's lookup of group `q`. Although the walk visits the whole
      tree, in a well-shaped tree only one node contributes: the child keyed
      `q` of the major node the build files `q` under. */
  function Lookup(t: Node, q: string): (r: seq<Donor>)
    ensures WellShaped(t) ==> r == MajorDonors(t.children, q)
    ensures WellShaped(t) && !IsIndexed(q) ==> r == []
  {
    assert WellShaped(t) ==> Collect(t, q) == MajorDonors(t.children, q) by {
      if WellShaped(t) {
        MajorLookup(t.children, q);
      }
    }
    assert MajorOf(q).None? ==> MajorDonors(t.children, q) == [] by {
      if MajorOf(q).None? {
        NoMajorDonors(t.children, q);
      }
    }
    Collect(t, q)
  }

  /** The donors of the sibling keyed `q`, if there is one. */
  function LeafDonors(ls: seq<Node>, q: string): seq<Donor>
    decreases |ls|
  {
    if |ls| == 0 then []
    else if ls[0].group == q then ls[0].donors
    else LeafDonors(ls[1..], q)
  }

  /** The donors of the leaf keyed `q` under the major node `q` is filed under. */
  function MajorDonors(ms: seq<Node>, q: string): seq<Donor>
    decreases |ms|
  {
    if |ms| == 0 then []
    else if MajorOf(q) == Some(ms[0].group) then LeafDonors(ms[0].children, q)
    else MajorDonors(ms[1..], q)
  }

  lemma {:induction false} NoMajorDonors(ms: seq<Node>, q: string)
    requires MajorOf(q).None?
    ensures MajorDonors(ms, q) == []
    decreases |ms|
  {
    if |ms| > 0 {
      NoMajorDonors(ms[1..], q);
    }
  }

  /** The walk over a leaf list collects the donors of the leaf keyed `q` only. */
  lemma {:induction false} LeafLookup(ls: seq<Node>, m: string, q: string)
    requires Leaves(ls, m)
    ensures CollectAll(ls, q) == LeafDonors(ls, q)
    decreases |ls|
  {
    if |ls| > 0 {
      if ls[0].group == q {
        LeavesWithoutQuery(ls[1..], m, q);
      } else {
        assert Collect(ls[0], q) == CollectAll([], q);
        LeafLookup(ls[1..], m, q);
      }
    }
  }

  /** The walk over the major level collects only under the query's own major node. */
  lemma {:induction false} MajorLookup(ms: seq<Node>, q: string)
    requires Majors(ms)
    ensures CollectAll(ms, q) == MajorDonors(ms, q)
    decreases |ms|
  {
    if |ms| > 0 {
      if MajorOf(q) == Some(ms[0].group) {
        LeafLookup(ms[0].children, ms[0].group, q);
        MajorsWithoutQuery(ms[1..], ms[0].group, q);
      } else {
        LeavesNotFiledUnder(ms[0].children, ms[0].group, q);
        LeavesWithoutQuery(ms[0].children, ms[0].group, q);
        MajorLookup(ms[1..], q);
      }
    }
  }

  /** Reference definition: the donors of group `q`, in input order, provided
      the build indexes that group at all. */
  function Matching(ds: seq<Donor>, q: string): (r: seq<Donor>)
    ensures forall x | x in r :: x in ds && x.profile.bloodGroup == q && IsIndexed(q)
  {
    if |ds| == 0 then []
    else (if ds[0].profile.bloodGroup == q && IsIndexed(q) then [ds[0]] else []) + Matching(ds[1..], q)
  }

  // Shape of a built tree.

  /** Third level under major `m`: childless nodes with distinct keys, each
      key filed under `m`. */
  predicate Leaves(ls: seq<Node>, m: string)
    decreases |ls|
  {
    |ls| == 0 ||
    (&& ls[0].children == []
     && MajorOf(ls[0].group) == Some(m)
     && !HasKey(ls[1..], ls[0].group)
     && Leaves(ls[1..], m))
  }

  /** Second level: donor-less nodes with distinct keys over well-formed leaves. */
  predicate Majors(ms: seq<Node>)
    decreases |ms|
  {
    |ms| == 0 ||
    (&& ms[0].donors == []
     && Leaves(ms[0].children, ms[0].group)
     && !HasKey(ms[1..], ms[0].group)
     && Majors(ms[1..]))
  }

  predicate WellShaped(t: Node) {
    t.group == "root" && t.donors == [] && Majors(t.children)
  }

  lemma {:induction false} LeavesWithoutQuery(ls: seq<Node>, m: string, q: string)
    requires Leaves(ls, m) && !HasKey(ls, q)
    ensures CollectAll(ls, q) == []
    decreases |ls|
  {
    if |ls| > 0 {
      LeavesWithoutQuery(ls[1..], m, q);
    }
  }

  lemma {:induction false} AddLeafDonorCollects(ls: seq<Node>, m: string, g: string, d: Donor, q: string)
    requires Leaves(ls, m) && MajorOf(g) == Some(m)
    ensures Leaves(AddLeafDonor(ls, g, d), m)
    ensures CollectAll(AddLeafDonor(ls, g, d), q) == CollectAll(ls, q) + (if g == q then [d] else [])
    decreases |ls|
  {
    var r := AddLeafDonor(ls, g, d);
    if |ls| == 0 {
      assert CollectAll(r, q) == Collect(r[0], q) + CollectAll(r[1..], q);
    } else if ls[0].group == g {
      assert r[1..] == ls[1..];
      if g == q {
        LeavesWithoutQuery(ls[1..], m, q);
      }
    } else {
      AddLeafDonorCollects(ls[1..], m, g, d, q);
      assert r[1..] == AddLeafDonor(ls[1..], g, d);
    }
  }

  lemma {:induction false} MajorsWithoutQuery(ms: seq<Node>, m: string, q: string)
    requires Majors(ms) && MajorOf(q) == Some(m) && !HasKey(ms, m)
    ensures CollectAll(ms, q) == []
    decreases |ms|
  {
    if |ms| > 0 {
      LeavesNotFiledUnder(ms[0].children, ms[0].group, q);
      LeavesWithoutQuery(ms[0].children, ms[0].group, q);
      MajorsWithoutQuery(ms[1..], m, q);
    }
  }

  /** A leaf list filed under `m` holds no key filed elsewhere. */
  lemma {:induction false} LeavesNotFiledUnder(ls: seq<Node>, m: string, q: string)
    requires Leaves(ls, m) && MajorOf(q) != Some(m)
    ensures !HasKey(ls, q)
    decreases |ls|
  {
    if |ls| > 0 {
      LeavesNotFiledUnder(ls[1..], m, q);
    }
  }

  lemma {:induction false} AddMajorDonorShape(ms: seq<Node>, m: string, g: string, d: Donor)
    requires Majors(ms) && MajorOf(g) == Some(m)
    ensures Majors(AddMajorDonor(ms, m, g, d))
    ensures forall h :: HasKey(AddMajorDonor(ms, m, g, d), h) <==> HasKey(ms, h) || h == m
    decreases |ms|
  {
    var r := AddMajorDonor(ms, m, g, d);
    if |ms| == 0 {
      AddLeafDonorCollects([], m, g, d, g);
      assert r[1..] == [];
    } else if ms[0].group == m {
      AddLeafDonorCollects(ms[0].children, m, g, d, g);
      assert r[1..] == ms[1..];
    } else {
      AddMajorDonorShape(ms[1..], m, g, d);
      assert r[1..] == AddMajorDonor(ms[1..], m, g, d);
    }
  }

  lemma CollectAllCons(n: Node, ns: seq<Node>, q: string)
    ensures CollectAll([n] + ns, q) == Collect(n, q) + CollectAll(ns, q)
  {
    assert ([n] + ns)[1..] == ns;
  }

  /** Filing under a donor-less major node adds the donor to that node's
      own walk exactly when the query is the donor's group. */
  lemma CollectUnderMajor(n: Node, g: string, d: Donor, q: string)
    requires n.donors == [] && Leaves(n.children, n.group) && MajorOf(g) == Some(n.group)
    ensures Collect(n.(children := AddLeafDonor(n.children, g, d)), q)
         == Collect(n, q) + (if g == q then [d] else [])
  {
    AddLeafDonorCollects(n.children, n.group, g, d, q);
  }

  /** The case of AddMajorDonorCollects where the first major `n` is the donor's. */
  lemma AddUnderFirstMajor(n: Node, rest: seq<Node>, g: string, d: Donor, q: string)
    requires n.donors == [] && Leaves(n.children, n.group) && MajorOf(g) == Some(n.group)
    requires Majors(rest) && !HasKey(rest, n.group)
    ensures CollectAll([n.(children := AddLeafDonor(n.children, g, d))] + rest, q)
         == CollectAll([n] + rest, q) + (if g == q then [d] else [])
  {
    var head := n.(children := AddLeafDonor(n.children, g, d));
    CollectUnderMajor(n, g, d, q);
    CollectAllCons(head, rest, q);
    CollectAllCons(n, rest, q);
    if g == q {
      MajorsWithoutQuery(rest, n.group, q);
      assert CollectAll([head] + rest, q) == Collect(n, q) + [d];
      assert CollectAll([n] + rest, q) == Collect(n, q);
    } else {
      assert Collect(head, q) == Collect(n, q);
    }
  }

  lemma {:induction false} AddMajorDonorCollects(ms: seq<Node>, m: string, g: string, d: Donor, q: string)
    requires Majors(ms) && MajorOf(g) == Some(m)
    ensures CollectAll(AddMajorDonor(ms, m, g, d), q) == CollectAll(ms, q) + (if g == q then [d] else [])
    decreases |ms|
  {
    if |ms| == 0 {
      AddLeafDonorCollects([], m, g, d, q);
      CollectAllCons(Node(m, AddLeafDonor([], g, d), []), [], q);
    } else if ms[0].group == m {
      AddUnderFirstMajor(ms[0], ms[1..], g, d, q);
      assert ms == [ms[0]] + ms[1..];
    } else {
      AddMajorDonorCollects(ms[1..], m, g, d, q);
      CollectAllCons(ms[0], AddMajorDonor(ms[1..], m, g, d), q);
    }
  }

  lemma FileDonorCollects(t: Node, d: Donor, q: string)
    requires WellShaped(t)
    ensures WellShaped(FileDonor(t, d))
    ensures Lookup(FileDonor(t, d), q)
         == Lookup(t, q) + (if d.profile.bloodGroup == q && IsIndexed(q) then [d] else [])
  {
    var g := d.profile.bloodGroup;
    if MajorOf(g).Some? {
      AddMajorDonorShape(t.children, MajorOf(g).value, g, d);
      AddMajorDonorCollects(t.children, MajorOf(g).value, g, d, q);
    }
  }

  lemma {:induction false} BuildFromCollects(t: Node, ds: seq<Donor>, q: string)
    requires WellShaped(t)
    ensures WellShaped(BuildFrom(t, ds))
    ensures Lookup(BuildFrom(t, ds), q) == Lookup(t, q) + Matching(ds, q)
    decreases |ds|
  {
    if |ds| > 0 {
      FileDonorCollects(t, ds[0], q);
      BuildFromCollects(FileDonor(t, ds[0]), ds[1..], q);
    }
  }

  /** Build followed by lookup is an order-preserving filter of the input:
      exactly the donors whose group equals the query, provided that group is
      indexed at all. */
  lemma LookupIsFilter(ds: seq<Donor>, q: string)
    ensures WellShaped(Build(ds))
    ensures Lookup(Build(ds), q) == Matching(ds, q)
  {
    BuildFromCollects(Root, ds, q);
  }

  /** An "AB-" donor is filed under the "A" node, and the lookup still finds it. */
  lemma AbNegativeUnderA(d: Donor)
    requires d.profile.bloodGroup == "AB-"
    ensures MajorOf("AB-") == Some("A")
    ensures Build([d]).children == [Node("A", [Node("AB-", [], [d])], [])]
    ensures Lookup(Build([d]), "AB-") == [d]
  {
    assert MajorOf("AB-") == Some("A") by {
      assert "AB-"[..1] == "A";
    }
    assert [d][1..] == [];
    assert Build([d]) == BuildFrom(FileDonor(Root, d), []);
    LookupIsFilter([d], "AB-");
  }
}
