/** The resource tree of api-console.js: flattening it and grouping the result. */
module Resources {
  import opened Wrappers
  import opened Sequences

  /** A resource: the text of its own path segment, and the resources below it. */
  datatype Resource = Resource(uri: string, children: seq<Resource>)

  /** The path segments of an overview, from the top of the tree. */
  type Segments = seq<string>

  /** extractResources: each resource with its full path, followed by what is below it. */
  function Extract(base: Segments, resources: seq<Resource>): seq<Segments>
    decreases resources
  {
    if resources == [] then []
    else
      var path := base + [resources[0].uri];
      [path] + Extract(path, resources[0].children) + Extract(base, resources[1..])
  }

  method ExtractResources(base: Segments, resources: seq<Resource>) returns (overviews: seq<Segments>)
    ensures overviews == Extract(base, resources)
    decreases resources
  {
    overviews := [];
    var i := 0;
    while i < |resources|
      invariant 0 <= i <= |resources|
      invariant Extract(base, resources) == overviews + Extract(base, resources[i..])
    {
      var resource := resources[i];
      assert resources[i..][0] == resource && resources[i..][1..] == resources[i + 1..];
      var path := base + [resource.uri];
      var extracted := ExtractResources(path, resource.children);
      Reassociate(overviews, [path], extracted, Extract(base, resources[i + 1..]));
      overviews := overviews + [path] + extracted;
      i := i + 1;
    }
  }

  // ---- every node once, in preorder ----

  /** The place of a resource: its index at each level. */
  type Address = seq<nat>

  ghost predicate IsAddress(resources: seq<Resource>, a: Address)
    decreases |a|
  {
    a != [] && a[0] < |resources| && (|a| == 1 || IsAddress(resources[a[0]].children, a[1..]))
  }

  /** The URIs on the way to a place. */
  function PathTo(resources: seq<Resource>, a: Address): Segments
    requires IsAddress(resources, a)
    decreases |a|
  {
    var r := resources[a[0]];
    if |a| == 1 then [r.uri] else [r.uri] + PathTo(r.children, a[1..])
  }

  /** Preorder: a parent before its children, and what is left before what is right. */
  predicate Before(a: Address, b: Address) {
    b != [] && (a == [] || a[0] < b[0] || (a[0] == b[0] && Before(a[1..], b[1..])))
  }

  /** An address in the first resource's children, seen from the list. */
  function Down(a: Address): Address {
    [0] + a
  }

  /** An address in the list without its first resource, seen from the whole list. */
  function Right(a: Address): Address
    requires a != []
  {
    [a[0] + 1] + a[1..]
  }

  ghost predicate AllNonEmpty(addresses: seq<Address>) {
    forall i :: 0 <= i < |addresses| ==> addresses[i] != []
  }

  function DownAll(addresses: seq<Address>): seq<Address> {
    seq(|addresses|, i requires 0 <= i < |addresses| => Down(addresses[i]))
  }

  function RightAll(addresses: seq<Address>): seq<Address>
    requires AllNonEmpty(addresses)
  {
    seq(|addresses|, i requires 0 <= i < |addresses| => Right(addresses[i]))
  }

  /** The addresses in the order of the overviews. */
  function Addresses(resources: seq<Resource>): (addresses: seq<Address>)
    ensures AllNonEmpty(addresses)
    decreases resources
  {
    if resources == [] then []
    else [[0]] + DownAll(Addresses(resources[0].children)) + RightAll(Addresses(resources[1..]))
  }

  lemma AddressDown(resources: seq<Resource>, a: Address)
    requires resources != [] && IsAddress(resources[0].children, a)
    ensures IsAddress(resources, Down(a))
    ensures PathTo(resources, Down(a)) == [resources[0].uri] + PathTo(resources[0].children, a)
  {
    assert Down(a)[1..] == a;
  }

  lemma AddressRight(resources: seq<Resource>, a: Address)
    requires resources != [] && IsAddress(resources[1..], a)
    ensures IsAddress(resources, Right(a))
    ensures PathTo(resources, Right(a)) == PathTo(resources[1..], a)
  {
    assert Right(a)[1..] == a[1..];
    assert resources[Right(a)[0]] == resources[1..][a[0]];
  }

  ghost predicate Follows(base: Segments, resources: seq<Resource>, path: Segments, a: Address) {
    IsAddress(resources, a) && path == base + PathTo(resources, a)
  }

  lemma FollowsDown(base: Segments, resources: seq<Resource>, path: Segments, a: Address)
    requires resources != [] && Follows(base + [resources[0].uri], resources[0].children, path, a)
    ensures Follows(base, resources, path, Down(a))
  {
    AddressDown(resources, a);
  }

  lemma FollowsRight(base: Segments, resources: seq<Resource>, path: Segments, a: Address)
    requires resources != [] && Follows(base, resources[1..], path, a)
    ensures a != [] && Follows(base, resources, path, Right(a))
  {
    AddressRight(resources, a);
  }

  /** The overviews belong one by one to the addresses. */
  ghost predicate AllFollow(base: Segments, resources: seq<Resource>,
      overviews: seq<Segments>, addresses: seq<Address>)
  {
    && |overviews| == |addresses|
    && forall i :: 0 <= i < |addresses| ==> Follows(base, resources, overviews[i], addresses[i])
  }

  lemma AllFollowConcat(base: Segments, resources: seq<Resource>,
      os: seq<Segments>, as_: seq<Address>, more: seq<Segments>, further: seq<Address>)
    requires AllFollow(base, resources, os, as_) && AllFollow(base, resources, more, further)
    ensures AllFollow(base, resources, os + more, as_ + further)
  {}

  lemma AllFollowDown(base: Segments, resources: seq<Resource>, below: seq<Segments>, down: seq<Address>)
    requires resources != [] && AllFollow(base + [resources[0].uri], resources[0].children, below, down)
    ensures AllFollow(base, resources, below, DownAll(down))
  {
    forall i | 0 <= i < |down| ensures Follows(base, resources, below[i], DownAll(down)[i]) {
      FollowsDown(base, resources, below[i], down[i]);
    }
  }

  lemma AllFollowRight(base: Segments, resources: seq<Resource>, later: seq<Segments>, right: seq<Address>)
    requires resources != [] && AllNonEmpty(right) && AllFollow(base, resources[1..], later, right)
    ensures AllFollow(base, resources, later, RightAll(right))
  {
    forall i | 0 <= i < |right| ensures Follows(base, resources, later[i], RightAll(right)[i]) {
      FollowsRight(base, resources, later[i], right[i]);
    }
  }

  lemma FirstFollows(base: Segments, resources: seq<Resource>)
    requires resources != []
    ensures AllFollow(base, resources, [base + [resources[0].uri]], [[0]])
  {
    assert IsAddress(resources, [0]) && PathTo(resources, [0]) == [resources[0].uri];
  }

  lemma {:induction false} OverviewsFollowAddresses(base: Segments, resources: seq<Resource>)
    ensures AllFollow(base, resources, Extract(base, resources), Addresses(resources))
    decreases resources
  {
    if resources == [] {
    } else {
      var path, children := base + [resources[0].uri], resources[0].children;
      var below, later := Extract(path, children), Extract(base, resources[1..]);
      var down, right := DownAll(Addresses(children)), RightAll(Addresses(resources[1..]));
      FirstFollows(base, resources);
      OverviewsFollowAddresses(path, children);
      AllFollowDown(base, resources, below, Addresses(children));
      OverviewsFollowAddresses(base, resources[1..]);
      AllFollowRight(base, resources, later, Addresses(resources[1..]));
      AllFollowConcat(base, resources, [path], [[0]], below, down);
      AllFollowConcat(base, resources, [path] + below, [[0]] + down, later, right);
    }
  }

  /** An address leads to the first resource, into its children, or into the rest of the list. */
  lemma AddressCases(resources: seq<Resource>, a: Address)
    requires IsAddress(resources, a)
    ensures a[0] == 0 && a != [0] ==> IsAddress(resources[0].children, a[1..]) && Down(a[1..]) == a
    ensures a[0] > 0 ==> var b := [a[0] - 1] + a[1..]; IsAddress(resources[1..], b) && Right(b) == a
  {
    if a[0] > 0 {
      var b := [a[0] - 1] + a[1..];
      assert b[1..] == a[1..] && resources[1..][b[0]] == resources[a[0]];
    } else if |a| == 1 {
      assert a == [0];
    }
  }

  lemma ListedBelow(resources: seq<Resource>, a: Address)
    requires resources != [] && a in Addresses(resources[0].children)
    ensures Down(a) in Addresses(resources)
  {
    var down := Addresses(resources[0].children);
    var j :| 0 <= j < |down| && down[j] == a;
    assert DownAll(down)[j] == Down(a);
  }

  lemma ListedToTheRight(resources: seq<Resource>, a: Address)
    requires resources != [] && a != [] && a in Addresses(resources[1..])
    ensures Right(a) in Addresses(resources)
  {
    var right := Addresses(resources[1..]);
    var j :| 0 <= j < |right| && right[j] == a;
    assert RightAll(right)[j] == Right(a);
  }

  lemma {:induction false} EveryAddressIsListed(resources: seq<Resource>, a: Address)
    requires IsAddress(resources, a)
    ensures a in Addresses(resources)
    decreases |a|, if a == [] then 0 else a[0]
  {
    AddressCases(resources, a);
    if a == [0] {
      assert Addresses(resources)[0] == a;
    } else if a[0] == 0 {
      EveryAddressIsListed(resources[0].children, a[1..]);
      ListedBelow(resources, a[1..]);
    } else {
      var b := [a[0] - 1] + a[1..];
      EveryAddressIsListed(resources[1..], b);
      ListedToTheRight(resources, b);
    }
  }

  ghost predicate Ordered(addresses: seq<Address>) {
    forall i, j :: 0 <= i < j < |addresses| ==> Before(addresses[i], addresses[j])
  }

  lemma DownAt(addresses: seq<Address>, i: nat)
    requires i < |addresses| && AllNonEmpty(addresses)
    ensures DownAll(addresses)[i][0] == 0 && DownAll(addresses)[i][1..] == addresses[i]
    ensures |DownAll(addresses)[i]| > 1
  {}

  lemma RightAt(addresses: seq<Address>, i: nat)
    requires i < |addresses| && AllNonEmpty(addresses)
    ensures var a := RightAll(addresses)[i];
            a != [] && a[0] == addresses[i][0] + 1 && a[1..] == addresses[i][1..]
  {}

  /** Two places in what Addresses puts together from its parts. */
  lemma OrderedParts(down: seq<Address>, right: seq<Address>, i: nat, j: nat)
    requires AllNonEmpty(down) && AllNonEmpty(right) && Ordered(down) && Ordered(right)
    requires i < j < 1 + |down| + |right|
    ensures var all := [[0]] + DownAll(down) + RightAll(right); Before(all[i], all[j])
  {
    var all := [[0]] + DownAll(down) + RightAll(right);
    if i == 0 {
      assert all[0] == [0] && all[0][1..] == [];
      if j <= |down| { DownAt(down, j - 1); } else { RightAt(right, j - 1 - |down|); }
    } else if j <= |down| {
      DownAt(down, i - 1);
      DownAt(down, j - 1);
    } else {
      RightAt(right, j - 1 - |down|);
      if i <= |down| { DownAt(down, i - 1); } else { RightAt(right, i - 1 - |down|); }
    }
  }

  lemma {:induction false} AddressesAreOrdered(resources: seq<Resource>)
    ensures Ordered(Addresses(resources))
    decreases resources
  {
    if resources != [] {
      var down, right := Addresses(resources[0].children), Addresses(resources[1..]);
      AddressesAreOrdered(resources[0].children);
      AddressesAreOrdered(resources[1..]);
      var all := Addresses(resources);
      assert all == [[0]] + DownAll(down) + RightAll(right);
      forall i, j | 0 <= i < j < |all| ensures Before(all[i], all[j]) {
        OrderedParts(down, right, i, j);
      }
    }
  }

  /**
   extractResources lists every resource of the tree exactly once, in preorder, with its full
   path: the overviews belong one by one to the addresses of the tree, which are all there, and
   strictly ordered.
   */
  lemma ExtractListsTheTree(resources: seq<Resource>)
    ensures var addresses, overviews := Addresses(resources), Extract([], resources);
            && |overviews| == |addresses| && Ordered(addresses)
            && (forall a :: a in addresses <==> IsAddress(resources, a))
            && (forall i :: 0 <= i < |addresses| ==> IsAddress(resources, addresses[i])
                                                     && overviews[i] == PathTo(resources, addresses[i]))
  {
    var addresses, overviews := Addresses(resources), Extract([], resources);
    AddressesAreOrdered(resources);
    OverviewsFollowAddresses([], resources);
    forall i | 0 <= i < |addresses|
      ensures IsAddress(resources, addresses[i]) && overviews[i] == PathTo(resources, addresses[i])
    {
      assert Follows([], resources, overviews[i], addresses[i]);
      EmptyLeft(PathTo(resources, addresses[i]));
    }
    forall a | IsAddress(resources, a) ensures a in addresses {
      EveryAddressIsListed(resources, a);
    }
  }

  // ---- groups ----

  const UNDEFINED := "undefined"

  predicate StartsWith(s: string, prefix: string) {
    |prefix| <= |s| && s[..|prefix|] == prefix
  }

  /** prefix === currentPrefix || prefix.indexOf(currentPrefix + '/') === 0 */
  predicate Belongs(prefix: string, current: Option<string>) {
    if current.Some? then prefix == current.value || StartsWith(prefix, current.value + "/")
    else StartsWith(prefix, UNDEFINED + "/")
  }

  /** The head's path itself, or one below it; for the head that is not there, text below "undefined". */
  lemma BelongsIff(prefix: string, current: Option<string>)
    ensures Belongs(prefix, current) <==>
            match current
            case Some(head) => prefix == head || exists rest :: prefix == head + "/" + rest
            case None => exists rest :: prefix == "undefined/" + rest
  {
    var head := if current.Some? then current.value + "/" else "undefined/";
    if StartsWith(prefix, head) {
      assert prefix == head + prefix[|head|..];
    }
    forall rest | prefix == head + rest ensures StartsWith(prefix, head) {}
  }

  /** A group: it has a head, and its other members belong to the head's prefix. */
  ghost predicate IsGroup(group: seq<Segments>) {
    && group != [] && group[0] != []
    && forall i :: 0 < i < |group| ==> group[i] != [] && Belongs(group[i][0], Some(group[0][0]))
  }

  /** The groups make up the list, and no head could have joined the group before it. */
  ghost predicate AreGroups(groups: seq<seq<Segments>>, overviews: seq<Segments>) {
    && Flatten(groups) == overviews
    && (forall g :: 0 <= g < |groups| ==> IsGroup(groups[g]))
    && (forall g :: 0 < g < |groups| ==> !Belongs(groups[g][0][0], Some(groups[g - 1][0][0])))
  }

  lemma JoinedGroupIsGroup(group: seq<Segments>, resource: Segments)
    requires IsGroup(group) && resource != [] && Belongs(resource[0], Some(group[0][0]))
    ensures IsGroup(group + [resource]) && (group + [resource])[0] == group[0]
  {}

  lemma JoiningFlattens(groups: seq<seq<Segments>>, resource: Segments)
    requires groups != []
    ensures var last := |groups| - 1;
            Flatten(groups[last := groups[last] + [resource]]) == Flatten(groups) + [resource]
  {
    var last := |groups| - 1;
    FlattenAppend(groups[..last], groups[last]);
    FlattenAppend(groups[..last], groups[last] + [resource]);
    assert groups == groups[..last] + [groups[last]];
    assert groups[last := groups[last] + [resource]] == groups[..last] + [groups[last] + [resource]];
  }

  lemma JoiningKeepsGroups(groups: seq<seq<Segments>>, overviews: seq<Segments>, resource: Segments)
    requires AreGroups(groups, overviews) && groups != [] && resource != []
    requires Belongs(resource[0], Some(groups[|groups| - 1][0][0]))
    ensures var last := |groups| - 1;
            AreGroups(groups[last := groups[last] + [resource]], overviews + [resource])
  {
    JoiningFlattens(groups, resource);
    JoinedGroupIsGroup(groups[|groups| - 1], resource);
  }

  lemma OpeningKeepsGroups(groups: seq<seq<Segments>>, overviews: seq<Segments>, resource: Segments)
    requires AreGroups(groups, overviews) && resource != []
    requires groups != [] ==> !Belongs(resource[0], Some(groups[|groups| - 1][0][0]))
    ensures AreGroups(groups + [[resource]], overviews + [resource])
  {
    FlattenAppend(groups, [resource]);
  }

  /**
   groupResources; None is a TypeError. It comes from an overview without path segments, or from
   pushing to a group that is not there, when the first path begins with "undefined/".
   */
  method GroupResources(overviews: seq<Segments>) returns (groups: Option<seq<seq<Segments>>>)
    ensures groups.None? <==>
            [] in overviews || (overviews != [] && StartsWith(overviews[0][0], UNDEFINED + "/"))
    ensures groups.Some? ==> AreGroups(groups.value, overviews)
  {
    var currentPrefix: Option<string> := None;
    var resourceGroups: seq<seq<Segments>> := [];
    for i := 0 to |overviews|
      invariant [] !in overviews[..i] && AreGroups(resourceGroups, overviews[..i])
      invariant i > 0 ==> !StartsWith(overviews[0][0], UNDEFINED + "/")
      invariant if i == 0 then resourceGroups == [] && currentPrefix.None?
                else resourceGroups != [] && currentPrefix == Some(resourceGroups[|resourceGroups| - 1][0][0])
    {
      var resource := overviews[i];
      if resource == [] {
        return None;
      }
      var prefix := resource[0];
      assert overviews[..i + 1] == overviews[..i] + [resource];
      if Belongs(prefix, currentPrefix) {
        if resourceGroups == [] {
          return None;
        }
        var last := |resourceGroups| - 1;
        JoiningKeepsGroups(resourceGroups, overviews[..i], resource);
        resourceGroups := resourceGroups[last := resourceGroups[last] + [resource]];
      } else {
        currentPrefix := Some(prefix);
        OpeningKeepsGroups(resourceGroups, overviews[..i], resource);
        resourceGroups := resourceGroups + [[resource]];
      }
    }
    assert overviews[..|overviews|] == overviews;
    return Some(resourceGroups);
  }

  /** How many overviews from the start belong to a prefix. */
  function Run(overviews: seq<Segments>, head: string): nat {
    if overviews == [] || overviews[0] == [] || !Belongs(overviews[0][0], Some(head)) then 0
    else 1 + Run(overviews[1..], head)
  }

  lemma {:induction false} RunIs(overviews: seq<Segments>, head: string, n: nat)
    requires n <= |overviews|
    requires forall i :: 0 <= i < n ==> overviews[i] != [] && Belongs(overviews[i][0], Some(head))
    requires n < |overviews| ==> overviews[n] != [] && !Belongs(overviews[n][0], Some(head))
    ensures Run(overviews, head) == n
  {
    if n > 0 {
      RunIs(overviews[1..], head, n - 1);
    }
  }

  /** The first group is the whole run of its head. */
  lemma FirstGroupIsRun(groups: seq<seq<Segments>>, overviews: seq<Segments>)
    requires AreGroups(groups, overviews) && groups != []
    ensures overviews != [] && overviews[0] != [] && |groups[0]| == Run(overviews, overviews[0][0])
    ensures groups[0] == overviews[..|groups[0]|] && AreGroups(groups[1..], overviews[|groups[0]|..])
  {
    var first, rest := groups[0], Flatten(groups[1..]);
    assert overviews == first + rest;
    if |groups| > 1 {
      assert groups[1..][0] == groups[1] && rest[0] == groups[1][0];
    } else {
      assert rest == [];
    }
    RunIs(overviews, overviews[0][0], |first|);
  }

  /** There is only one way to group a list. */
  lemma {:induction false} GroupsAreUnique(a: seq<seq<Segments>>, b: seq<seq<Segments>>, overviews: seq<Segments>)
    requires AreGroups(a, overviews) && AreGroups(b, overviews)
    ensures a == b
    decreases |a|
  {
    if a != [] {
      FirstGroupIsRun(a, overviews);
    }
    if b != [] {
      FirstGroupIsRun(b, overviews);
    }
    if a != [] {
      GroupsAreUnique(a[1..], b[1..], overviews[|a[0]|..]);
    }
  }

  /** The group that the i-th overview is in. */
  function GroupOf(groups: seq<seq<Segments>>, i: nat): nat {
    if groups == [] || i < |groups[0]| then 0 else 1 + GroupOf(groups[1..], i - |groups[0]|)
  }

  lemma {:induction false} NeighboursStayTogether(groups: seq<seq<Segments>>, overviews: seq<Segments>, i: nat)
    requires AreGroups(groups, overviews) && i + 1 < |overviews|
    requires overviews[i] != [] && overviews[i + 1] != [] && overviews[i][0] == overviews[i + 1][0]
    ensures GroupOf(groups, i) == GroupOf(groups, i + 1)
    decreases |groups|
  {
    if groups != [] {
      FirstGroupIsRun(groups, overviews);
      var n := |groups[0]|;
      if i >= n {
        NeighboursStayTogether(groups[1..], overviews[n..], i - n);
      } else if i + 1 == n {
        LastOfGroupBelongs(groups, overviews);
      }
    }
  }

  lemma LastOfGroupBelongs(groups: seq<seq<Segments>>, overviews: seq<Segments>)
    requires AreGroups(groups, overviews) && groups != [] && |groups[0]| < |overviews|
    ensures overviews[|groups[0]|] != [] && overviews[|groups[0]| - 1] != []
    ensures overviews[|groups[0]| - 1][0] != overviews[|groups[0]|][0]
  {
    var first, rest := groups[0], Flatten(groups[1..]);
    assert overviews == first + rest;
    assert |groups| > 1 && groups[1..][0] == groups[1] && rest[0] == groups[1][0];
    assert first[|first| - 1] == overviews[|first| - 1];
  }

  /** A top-level resource and everything below it. */
  function Subtree(r: Resource): seq<Segments> {
    [[r.uri]] + Extract([r.uri], r.children)
  }

  lemma {:induction false} ExtractStartsWithBase(base: Segments, resources: seq<Resource>)
    requires base != []
    ensures forall p :: p in Extract(base, resources) ==> p != [] && p[0] == base[0]
    decreases resources
  {
    if resources != [] {
      ExtractStartsWithBase(base + [resources[0].uri], resources[0].children);
      ExtractStartsWithBase(base, resources[1..]);
    }
  }

  lemma SubtreeAt(r: Resource, k: nat)
    requires k < |Subtree(r)|
    ensures Subtree(r)[k] != [] && Subtree(r)[k][0] == r.uri
  {
    ExtractStartsWithBase([r.uri], r.children);
    if k > 0 {
      assert Subtree(r)[k] in Extract([r.uri], r.children);
    }
  }

  lemma {:induction false} ExtractConcat(base: Segments, a: seq<Resource>, b: seq<Resource>)
    ensures Extract(base, a + b) == Extract(base, a) + Extract(base, b)
    decreases |a|
  {
    if a == [] {
      assert a + b == b;
    } else {
      assert (a + b)[1..] == a[1..] + b && (a + b)[0] == a[0];
      ExtractConcat(base, a[1..], b);
    }
  }

  /** The subtree of a top-level resource falls in one group. */
  lemma {:induction false} SubtreeInOneGroup(resources: seq<Resource>, t: nat, groups: seq<seq<Segments>>, k: nat)
    requires AreGroups(groups, Extract([], resources)) && t < |resources| && k < |Subtree(resources[t])|
    ensures var start := |Extract([], resources[..t])|;
            && start + k < |Extract([], resources)| && Extract([], resources)[start + k] == Subtree(resources[t])[k]
            && GroupOf(groups, start + k) == GroupOf(groups, start)
    decreases k
  {
    var overviews, r, start := Extract([], resources), resources[t], |Extract([], resources[..t])|;
    SubtreeIsPiece(resources, t);
    SubtreeAt(r, k);
    assert overviews[start + k] == Subtree(r)[k];
    if k > 0 {
      SubtreeAt(r, k - 1);
      assert overviews[start + k - 1] == Subtree(r)[k - 1];
      SubtreeInOneGroup(resources, t, groups, k - 1);
      NeighboursStayTogether(groups, overviews, start + k - 1);
    }
  }

  lemma SubtreeIsPiece(resources: seq<Resource>, t: nat)
    requires t < |resources|
    ensures Extract([], resources) ==
            Extract([], resources[..t]) + Subtree(resources[t]) + Extract([], resources[t + 1..])
  {
    var r := resources[t];
    assert resources == resources[..t] + resources[t..];
    ExtractConcat([], resources[..t], resources[t..]);
    assert resources[t..][0] == r && resources[t..][1..] == resources[t + 1..];
    assert [] + [r.uri] == [r.uri];
  }
}
