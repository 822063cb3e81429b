/**
 * The filesystem the collector reads, as a tree value.  Each entry has a name
 * and a node; a node's `info` is the size `Lstat`/`DirEntry.Info` reports, or
 * `None` when that call fails; a directory's `readable` says whether
 * `os.ReadDir` on it succeeds.  Symbolic links are leaves: neither `ReadDir`'s
 * `IsDir` nor `WalkDir` follows them.  Entries are listed in `os.ReadDir`
 * order (sorted by name).
 */
module FileTree {
  import opened Wrappers
  import opened Paths

  datatype Node =
    | Leaf(info: Option<int>)
    | Dir(info: Option<int>, readable: bool, entries: seq<Entry>)

  datatype Entry = Entry(name: Name, node: Node)

  /** The first entry called `n`, if any. */
  function Find(es: seq<Entry>, n: Name): (r: Option<Node>)
    ensures r.None? <==> forall e :: e in es ==> e.name != n
    ensures r.Some? ==> Entry(n, r.value) in es
  {
    if es == [] then None
    else if es[0].name == n then Some(es[0].node)
    else Find(es[1..], n)
  }

  /**
   * The node an absolute path names.  Looking a name up needs only search
   * permission, so it goes through directories whose listing is unreadable.
   */
  function Lookup(root: Node, p: Path): Option<Node>
    decreases p
  {
    if p == [] then Some(root)
    else match root
      case Leaf(_) => None
      case Dir(_, _, es) =>
        match Find(es, p[0])
        case None => None
        case Some(c) => Lookup(c, p[1..])
  }

  /** `os.ReadDir`: the listing of a readable directory, else the failing path. */
  function ReadDir(root: Node, p: Path): (r: Result<seq<Entry>, Path>)
    ensures r.Failure? ==> r.error == p
    ensures r.Success? <==> Lookup(root, p).Some? && Lookup(root, p).value.Dir? && Lookup(root, p).value.readable
  {
    match Lookup(root, p)
    case Some(Dir(_, true, es)) => Success(es)
    case _ => Failure(p)
  }

  /**
   * A tree a filesystem can hold: within each directory the entry names are
   * valid and pairwise distinct, and so on all the way down.
   */
  predicate WellFormed(n: Node)
    decreases n
  {
    match n
    case Leaf(_) => true
    case Dir(_, _, es) =>
      && (forall i :: 0 <= i < |es| ==> ValidName(es[i].name))
      && (forall i, j :: 0 <= i < j < |es| ==> es[i].name != es[j].name)
      && (forall i :: 0 <= i < |es| ==> WellFormed(es[i].node))
  }

  /** With distinct names, looking an entry's name up finds that entry. */
  lemma {:induction false} FindUnique(es: seq<Entry>, i: int)
    requires 0 <= i < |es|
    requires forall a, b :: 0 <= a < b < |es| ==> es[a].name != es[b].name
    ensures Find(es, es[i].name) == Some(es[i].node)
  {
    if i > 0 {
      assert es[0].name != es[i].name;
      FindUnique(es[1..], i - 1);
      assert es[1..][i - 1] == es[i];
    }
  }

  /** Every node of a well-formed tree is well formed. */
  lemma {:induction false} LookupWellFormed(root: Node, p: Path)
    requires WellFormed(root)
    ensures Lookup(root, p).Some? ==> WellFormed(Lookup(root, p).value)
    decreases p
  {
    if p != [] && root.Dir? && Find(root.entries, p[0]).Some? {
      var c := Find(root.entries, p[0]).value;
      var j :| 0 <= j < |root.entries| && root.entries[j] == Entry(p[0], c);
      LookupWellFormed(c, p[1..]);
    }
  }

  /**
   * In a well-formed tree, the path of a directory joined with the name of
   * one of its entries names exactly that entry's node.
   */
  lemma {:induction false} LookupChild(root: Node, p: Path, i: int)
    requires WellFormed(root)
    requires Lookup(root, p).Some? && Lookup(root, p).value.Dir?
    requires 0 <= i < |Lookup(root, p).value.entries|
    ensures Lookup(root, p + [Lookup(root, p).value.entries[i].name]) == Some(Lookup(root, p).value.entries[i].node)
    decreases p
  {
    var e := Lookup(root, p).value.entries[i];
    if p == [] {
      assert [] + [e.name] == [e.name];
      FindUnique(root.entries, i);
      assert [e.name][1..] == [];
    } else {
      var c := Find(root.entries, p[0]).value;
      var j :| 0 <= j < |root.entries| && root.entries[j] == Entry(p[0], c);
      assert WellFormed(c);
      LookupChild(c, p[1..], i);
      assert (p + [e.name])[0] == p[0];
      assert (p + [e.name])[1..] == p[1..] + [e.name];
    }
  }
}
