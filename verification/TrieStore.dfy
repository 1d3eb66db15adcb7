/**
 The abstract value of a path trie: which paths exist and the data each carries. The methods of
 PathTrie are proved against the functions here.
 */
module TrieStore {
  import opened Wrappers
  import opened Paths

  type Data = seq<Octet>

  /** Every existing path with its data; the root always exists. */
  type Store = map<Path, Option<Data>>

  const EMPTY: Store := map[Root := None]

  /** A path exists only below an existing one. */
  ghost predicate PrefixClosed(m: Store) {
    Root in m && forall p :: p in m && p.Child? ==> p.parent in m
  }

  function Prefixes(p: Path): (r: set<Path>)
    ensures forall q :: q in r <==> q.IsPrefixOf(p)
  {
    if p.Root? then {p} else {p} + Prefixes(p.parent)
  }

  /** The missing prefixes of p appear, without data. */
  function WithPrefixes(m: Store, p: Path): Store {
    if p.Root? then m
    else
      var n := WithPrefixes(m, p.parent);
      if p in n then n else n[p := None]
  }

  lemma {:induction false} WithPrefixesMeaning(m: Store, p: Path)
    requires Root in m
    ensures WithPrefixes(m, p) == map q | q in m.Keys + Prefixes(p) :: if q in m then m[q] else None
  {
    if p.Child? {
      WithPrefixesMeaning(m, p.parent);
    }
  }

  function Added(m: Store, p: Path, data: Option<Data>): Store {
    var n := WithPrefixes(m, p);
    if data.Some? then n[p := data] else n
  }

  /** The node at p goes, and with it everything below. */
  function Deleted(m: Store, p: Path): Store {
    map q | q in m && !p.IsPrefixOf(q) :: m[q]
  }

  function Cleared(m: Store): Store {
    map q | q in m && q.Root? :: m[q]
  }

  /** getNodeData as a function of the abstract value. */
  function DataAt(m: Store, q: Path): Option<Data> {
    if q in m then m[q] else None
  }

  datatype Outcome = Done | InvalidPath

  /** addPath on the abstract value; a null or malformed path changes nothing. */
  function AddPath(m: Store, path: Option<string>, data: Option<Data>): (Store, Outcome) {
    if path.None? then (m, Done)
    else match Components(path.value)
      case None => (m, InvalidPath)
      case Some(names) => (Added(m, At(names), data), Done)
  }

  function DeletePath(m: Store, path: Option<string>): (Store, Outcome) {
    if path.None? then (m, Done)
    else match Components(path.value)
      case None => (m, InvalidPath)
      case Some(names) => (Deleted(m, At(names)), Done)
  }

  /** getNode on the abstract value: None is the null node. */
  function FindPath(m: Store, path: Option<string>): (Option<Path>, Outcome) {
    if path.None? then (None, Done)
    else match Location(path.value)
      case None => (None, InvalidPath)
      case Some(names) => (if At(names) in m then Some(At(names)) else None, Done)
  }

  lemma {:induction false} PrefixExists(m: Store, p: Path, q: Path)
    requires PrefixClosed(m) && q in m && p.IsPrefixOf(q)
    ensures p in m
  {
    if p != q {
      PrefixExists(m, p, q.parent);
    }
  }

  lemma DeletedMissing(m: Store, p: Path, missing: Path)
    requires PrefixClosed(m) && missing !in m && missing.IsPrefixOf(p)
    ensures Deleted(m, p) == m
  {
    forall q | q in m && p.IsPrefixOf(q) ensures false {
      PrefixTransitive(missing, p, q);
      PrefixExists(m, missing, q);
    }
  }

  /** A leaf is an existing path, not the root, that no other existing path extends. */
  ghost predicate IsLeaf(m: Store, p: Path) {
    p in m && p.Child? && forall q :: q in m && p.IsPrefixOf(q) ==> q == p
  }
}
