/**
 * IOUtil: the post-order recursive delete used to remove the scratch directory,
 * and the whole-stream read used for the extraction tool's error output.
 *
 * The file system is a set of present paths (a path is its list of components)
 * together with a delete oracle: File.delete fails on the paths in `undeletable`
 * (permissions, I/O errors), on paths that do not exist and on directories that
 * still have entries. What File.isDirectory and File.listFiles report is a
 * snapshot `Tree` of the entry being deleted.
 */
module IOUtil {

  type Path = seq<string>

  /** An entry on disk: a plain file, or a directory with its listed entries. */
  datatype Tree = File(name: string) | Dir(name: string, children: seq<Tree>)

  /** Entries of one directory have pairwise distinct names, at every level. */
  ghost predicate WellFormed(t: Tree)
    decreases t
  {
    match t
    case File(_) => true
    case Dir(_, cs) =>
      && DistinctNames(cs)
      && forall i :: 0 <= i < |cs| ==> WellFormed(cs[i])
  }

  ghost predicate DistinctNames(cs: seq<Tree>)
  {
    forall i, j :: 0 <= i < j < |cs| ==> cs[i].name != cs[j].name
  }

  /** The names of the first n entries of a directory. */
  ghost function NamesBefore(cs: seq<Tree>, n: nat): set<string>
    requires n <= |cs|
  {
    set k | 0 <= k < n :: cs[k].name
  }

  /** The paths of all entries of the tree standing at `at`, the root included. */
  ghost function Nodes(t: Tree, at: Path): set<Path>
    decreases t
  {
    match t
    case File(_) => {at}
    case Dir(_, cs) => {at} + ChildNodes(cs, at, |cs|)
  }

  ghost function ChildNodes(cs: seq<Tree>, at: Path, n: nat): set<Path>
    requires n <= |cs|
    decreases cs, n
  {
    if n == 0 then {}
    else ChildNodes(cs, at, n - 1) + Nodes(cs[n - 1], at + [cs[n - 1].name])
  }

  /** The delete attempts recursiveDelete makes on the tree at `at`, in order. */
  function PostOrder(t: Tree, at: Path): seq<Path>
    decreases t
  {
    match t
    case File(_) => [at]
    case Dir(_, cs) => ChildrenPostOrder(cs, at, |cs|) + [at]
  }

  function ChildrenPostOrder(cs: seq<Tree>, at: Path, n: nat): seq<Path>
    requires n <= |cs|
    decreases cs, n
  {
    if n == 0 then []
    else ChildrenPostOrder(cs, at, n - 1) + PostOrder(cs[n - 1], at + [cs[n - 1].name])
  }

  ghost predicate NoDuplicates(s: seq<Path>)
  {
    forall i, j :: 0 <= i < j < |s| ==> s[i] != s[j]
  }

  /** No path is followed, later in s, by one of its descendants. */
  ghost predicate DescendantsFirst(s: seq<Path>)
  {
    forall i, j :: 0 <= i < j < |s| ==> !(s[i] < s[j])
  }

  lemma ConcatKeepsOrder(x: seq<Path>, y: seq<Path>)
    requires NoDuplicates(x) && NoDuplicates(y) && DescendantsFirst(x) && DescendantsFirst(y)
    requires forall p, q :: p in x && q in y ==> p != q && !(p < q)
    ensures NoDuplicates(x + y) && DescendantsFirst(x + y)
  {
    var s := x + y;
    forall i, j | 0 <= i < j < |s| ensures s[i] != s[j] && !(s[i] < s[j]) {
      if j < |x| {
        assert s[i] == x[i] && s[j] == x[j];
      } else if i >= |x| {
        assert s[i] == y[i - |x|] && s[j] == y[j - |x|];
      } else {
        assert s[i] in x && s[j] in y;
      }
    }
  }

  /**
   * recursiveDelete attempts every entry of the tree exactly once, and attempts
   * a directory only after everything below it; the last attempt is the root.
   */
  lemma {:induction false} PostOrderVisitsEachOnce(t: Tree, at: Path)
    requires WellFormed(t)
    ensures forall p :: p in PostOrder(t, at) <==> p in Nodes(t, at)
    ensures forall p :: p in PostOrder(t, at) ==> at <= p
    ensures NoDuplicates(PostOrder(t, at))
    ensures DescendantsFirst(PostOrder(t, at))
    ensures PostOrder(t, at)[|PostOrder(t, at)| - 1] == at
    decreases t
  {
    match t
    case File(_) =>
    case Dir(_, cs) =>
      ChildrenPostOrderFacts(cs, at, |cs|);
      var x := ChildrenPostOrder(cs, at, |cs|);
      forall p, q | p in x && q in [at] ensures p != q && !(p < q) {
      }
      ConcatKeepsOrder(x, [at]);
  }

  lemma {:induction false} ChildrenPostOrderFacts(cs: seq<Tree>, at: Path, n: nat)
    requires n <= |cs|
    requires DistinctNames(cs)
    requires forall i :: 0 <= i < |cs| ==> WellFormed(cs[i])
    ensures forall p :: p in ChildrenPostOrder(cs, at, n) <==> p in ChildNodes(cs, at, n)
    ensures forall p :: p in ChildrenPostOrder(cs, at, n) ==> at < p && p[|at|] in NamesBefore(cs, n)
    ensures NoDuplicates(ChildrenPostOrder(cs, at, n))
    ensures DescendantsFirst(ChildrenPostOrder(cs, at, n))
    decreases cs, n
  {
    if n > 0 {
      ChildrenPostOrderFacts(cs, at, n - 1);
      var c := cs[n - 1];
      var at' := at + [c.name];
      PostOrderVisitsEachOnce(c, at');
      var x := ChildrenPostOrder(cs, at, n - 1);
      var y := PostOrder(c, at');
      assert NamesBefore(cs, n) == NamesBefore(cs, n - 1) + {c.name};
      assert c.name !in NamesBefore(cs, n - 1);
      forall q | q in y ensures at < q && q[|at|] == c.name {
        assert at' <= q;
        assert q[|at|] == at'[|at|];
      }
      forall p, q | p in x && q in y ensures p != q && !(p < q) {
        assert p[|at|] != q[|at|];
      }
      ConcatKeepsOrder(x, y);
    }
  }

  /** File.delete succeeds on an existing, deletable path with nothing below it. */
  predicate Deletable(present: set<Path>, p: Path, undeletable: set<Path>)
  {
    && p in present
    && p !in undeletable
    && forall q :: q in present ==> !(p < q)
  }

  /** The paths still present after recursiveDelete of the tree at `at`. */
  function AfterDelete(t: Tree, at: Path, present: set<Path>, undeletable: set<Path>): set<Path>
    decreases t
  {
    var emptied :=
      match t
      case File(_) => present
      case Dir(_, cs) => AfterChildren(cs, at, |cs|, present, undeletable);
    if Deletable(emptied, at, undeletable) then emptied - {at} else emptied
  }

  function AfterChildren(cs: seq<Tree>, at: Path, n: nat, present: set<Path>, undeletable: set<Path>): set<Path>
    requires n <= |cs|
    decreases cs, n
  {
    if n == 0 then present
    else AfterDelete(cs[n - 1], at + [cs[n - 1].name], AfterChildren(cs, at, n - 1, present, undeletable), undeletable)
  }

  /** Deletion only removes paths, and only paths at or below `at`. */
  lemma {:induction false} DeleteStaysInside(t: Tree, at: Path, present: set<Path>, undeletable: set<Path>)
    ensures AfterDelete(t, at, present, undeletable) <= present
    ensures forall p :: p in present && !(at <= p) ==> p in AfterDelete(t, at, present, undeletable)
    decreases t
  {
    match t
    case File(_) =>
    case Dir(_, cs) => ChildrenStayInside(cs, at, |cs|, present, undeletable);
  }

  lemma {:induction false} ChildrenStayInside(cs: seq<Tree>, at: Path, n: nat, present: set<Path>, undeletable: set<Path>)
    requires n <= |cs|
    ensures AfterChildren(cs, at, n, present, undeletable) <= present
    ensures forall p :: p in present && !(at < p) ==> p in AfterChildren(cs, at, n, present, undeletable)
    decreases cs, n
  {
    if n > 0 {
      ChildrenStayInside(cs, at, n - 1, present, undeletable);
      var at' := at + [cs[n - 1].name];
      DeleteStaysInside(cs[n - 1], at', AfterChildren(cs, at, n - 1, present, undeletable), undeletable);
      assert at < at';
    }
  }

  lemma {:induction false} ChildNodesBelow(cs: seq<Tree>, at: Path, n: nat, p: Path)
    requires n <= |cs|
    requires p in ChildNodes(cs, at, n)
    ensures at < p
    ensures exists k :: 0 <= k < n && p in Nodes(cs[k], at + [cs[k].name])
    decreases cs, n
  {
    var c := cs[n - 1];
    if p in Nodes(c, at + [c.name]) {
      NodesBelow(c, at + [c.name], p);
    } else {
      ChildNodesBelow(cs, at, n - 1, p);
    }
  }

  lemma {:induction false} NodesBelow(t: Tree, at: Path, p: Path)
    requires p in Nodes(t, at)
    ensures at <= p
    decreases t
  {
    match t
    case File(_) =>
    case Dir(_, cs) =>
      if p != at {
        ChildNodesBelow(cs, at, |cs|, p);
      }
  }

  lemma {:induction false} ChildNodesInclude(cs: seq<Tree>, at: Path, n: nat, k: nat)
    requires k < n <= |cs|
    ensures Nodes(cs[k], at + [cs[k].name]) <= ChildNodes(cs, at, n)
    decreases n
  {
    if k < n - 1 {
      ChildNodesInclude(cs, at, n - 1, k);
    }
  }

  /**
   * When the snapshot lists everything below `at` and no entry refuses
   * deletion, recursiveDelete leaves nothing at or below `at`.
   */
  lemma {:induction false} DeleteEmptiesTree(t: Tree, at: Path, present: set<Path>, undeletable: set<Path>)
    requires WellFormed(t)
    requires forall p :: p in present && at <= p ==> p in Nodes(t, at)
    requires forall p :: p in Nodes(t, at) ==> p !in undeletable
    ensures forall p :: p in AfterDelete(t, at, present, undeletable) ==> !(at <= p)
    decreases t
  {
    match t
    case File(_) =>
      assert forall p :: p in present && at <= p ==> p == at;
    case Dir(_, cs) =>
      var emptied := AfterChildren(cs, at, |cs|, present, undeletable);
      ChildrenEmptied(cs, at, |cs|, present, undeletable);
      ChildrenStayInside(cs, at, |cs|, present, undeletable);
      forall p | p in emptied ensures !(at < p) {
        if at < p {
          ChildNodesNames(cs, at, |cs|, p);
        }
      }
      assert at in Nodes(t, at);
      assert at in emptied ==> Deletable(emptied, at, undeletable);
      var after := AfterDelete(t, at, present, undeletable);
      assert after == if Deletable(emptied, at, undeletable) then emptied - {at} else emptied;
      assert at !in after;
      forall p | p in after ensures !(at <= p) {
        assert p in emptied;
        assert p != at;
      }
  }

  lemma ChildNodesNames(cs: seq<Tree>, at: Path, n: nat, p: Path)
    requires n <= |cs|
    requires p in ChildNodes(cs, at, n)
    ensures at < p && p[|at|] in NamesBefore(cs, n)
  {
    ChildNodesBelow(cs, at, n, p);
    var k :| 0 <= k < n && p in Nodes(cs[k], at + [cs[k].name]);
    NodesBelow(cs[k], at + [cs[k].name], p);
    ExtendPrefix(at, p, cs[k].name);
  }

  /** A path below `at` lies below the entry of `at` its next component names. */
  lemma ExtendPrefix(at: Path, p: Path, name: string)
    requires at < p
    ensures (at + [name] <= p) <==> p[|at|] == name
  {
    if p[|at|] == name {
      assert p[..|at| + 1] == at + [name];
    }
  }

  lemma {:induction false} ChildrenEmptied(cs: seq<Tree>, at: Path, n: nat, present: set<Path>, undeletable: set<Path>)
    requires n <= |cs|
    requires DistinctNames(cs)
    requires forall i :: 0 <= i < |cs| ==> WellFormed(cs[i])
    requires forall p :: p in present && at < p ==> p in ChildNodes(cs, at, |cs|)
    requires forall p :: p in ChildNodes(cs, at, |cs|) ==> p !in undeletable
    ensures forall p :: p in AfterChildren(cs, at, n, present, undeletable) && at < p ==> p[|at|] !in NamesBefore(cs, n)
    decreases cs, n
  {
    if n > 0 {
      ChildrenEmptied(cs, at, n - 1, present, undeletable);
      ChildrenStayInside(cs, at, n - 1, present, undeletable);
      var c := cs[n - 1];
      var at' := at + [c.name];
      var before := AfterChildren(cs, at, n - 1, present, undeletable);
      ChildNodesInclude(cs, at, |cs|, n - 1);
      forall p | p in before && at' <= p ensures p in Nodes(c, at') {
        assert at < p;
        ChildNodesBelow(cs, at, |cs|, p);
        var k :| 0 <= k < |cs| && p in Nodes(cs[k], at + [cs[k].name]);
        NodesBelow(cs[k], at + [cs[k].name], p);
        ExtendPrefix(at, p, c.name);
        ExtendPrefix(at, p, cs[k].name);
        assert k == n - 1;
      }
      DeleteEmptiesTree(c, at', before, undeletable);
      DeleteStaysInside(c, at', before, undeletable);
      assert NamesBefore(cs, n) == NamesBefore(cs, n - 1) + {c.name};
      forall p | p in AfterChildren(cs, at, n, present, undeletable) && at < p
        ensures p[|at|] !in NamesBefore(cs, n)
      {
        assert p in before;
        ExtendPrefix(at, p, c.name);
      }
    }
  }

  /** The file system recursiveDelete works on, with the delete oracle. */
  class FileSystem {
    var present: set<Path>
    var attempts: seq<Path>
    const undeletable: set<Path>

    constructor (present: set<Path>, undeletable: set<Path>)
      ensures this.present == present && this.undeletable == undeletable
      ensures attempts == []
    {
      this.present := present;
      this.undeletable := undeletable;
      attempts := [];
    }

    /** File.delete: one attempt, recorded; false when the oracle or the state refuses. */
    method Delete(p: Path) returns (ok: bool)
      modifies this
      ensures ok == Deletable(old(present), p, undeletable)
      ensures present == if ok then old(present) - {p} else old(present)
      ensures attempts == old(attempts) + [p]
    {
      ok := p in present && p !in undeletable && forall q :: q in present ==> !(p < q);
      if ok {
        present := present - {p};
      }
      attempts := attempts + [p];
    }

    /**
     * IOUtil.recursiveDelete (and FileUtil.recursiveDelete, the same code):
     * a directory's entries are deleted first, then the entry itself; a failed
     * delete is only logged, so the traversal always runs to the end.
     */
    method RecursiveDelete(t: Tree, at: Path)
      modifies this
      ensures attempts == old(attempts) + PostOrder(t, at)
      ensures present == AfterDelete(t, at, old(present), undeletable)
      decreases t
    {
      match t {
        case File(_) =>
        case Dir(_, cs) =>
          for i := 0 to |cs|
            invariant attempts == old(attempts) + ChildrenPostOrder(cs, at, i)
            invariant present == AfterChildren(cs, at, i, old(present), undeletable)
          {
            RecursiveDelete(cs[i], at + [cs[i].name]);
          }
      }
      var deleted := Delete(at);
      // when !deleted the source logs a warning and carries on
    }
  }

  /** The error stream of the extraction process. */
  class InputStream {
    var unread: string
    var closed: bool

    constructor (content: string)
      ensures unread == content && !closed
    {
      unread := content;
      closed := false;
    }
  }

  /**
   * IOUtil.readInputStreamIntoString: a Scanner delimited by the start of input
   * yields all that is left, or "" when nothing is; a closed stream reads as
   * empty (Scanner treats the IOException as end of input). The scanner closes
   * the stream on the way out.
   */
  method ReadInputStreamIntoString(stream: InputStream) returns (text: string)
    modifies stream
    ensures text == if old(stream.closed) then "" else old(stream.unread)
    ensures stream.unread == "" && stream.closed
  {
    if !stream.closed && |stream.unread| > 0 {
      text := stream.unread;
    } else {
      text := "";
    }
    stream.unread := "";
    stream.closed := true;
  }
}
