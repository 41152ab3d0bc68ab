/** Resolving a path: components, parents, and symbolic links that rewrite what is left to resolve. */
module PathWalk {
  import opened Common
  import Dentry

  type Id = nat

  const MAX_LINKS: nat := 8

  datatype Node = Dir | File | Link(target: string)

  /** Names below directories, parents, and what each node is. */
  datatype Tree = Tree(root: Id, nodes: map<Id, Node>, children: map<(Id, string), Id>, parents: map<Id, Id>)

  predicate Closed(t: Tree) {
    && t.root in t.nodes
    && (forall e :: e in t.children ==> t.children[e] in t.nodes)
    && (forall i :: i in t.parents ==> t.parents[i] in t.nodes)
  }

  // ---- components ----

  predicate Absolute(path: string) {
    path != "" && path[0] == '/'
  }

  /** The pieces between slashes, without empty ones and single dots. */
  function Split(path: string): seq<string>
    decreases |path|
  {
    var n := Piece(path);
    var rest := if n < |path| then Split(path[n + 1..]) else [];
    if path[..n] == "" || path[..n] == "." then rest else [path[..n]] + rest
  }

  function Piece(path: string): (n: nat)
    ensures n <= |path| && (n < |path| ==> path[n] == '/') && forall i :: 0 <= i < n ==> path[i] != '/'
  {
    if path == "" || path[0] == '/' then 0 else 1 + Piece(path[1..])
  }

  /** Every component is a real name: not empty, not a dot, without slashes. */
  predicate RealName(c: string) {
    c != "" && c != "." && forall i :: 0 <= i < |c| ==> c[i] != '/'
  }

  lemma {:induction false} SplitNames(path: string)
    ensures forall i :: 0 <= i < |Split(path)| ==> RealName(Split(path)[i])
    decreases |path|
  {
    var n := Piece(path);
    if n < |path| {
      SplitNames(path[n + 1..]);
    }
  }

  // ---- walking ----

  datatype Outcome = At(id: Id, left: nat) | Loop | NotDirectory | NotFound

  function ParentOf(t: Tree, i: Id): Id {
    if i in t.parents then t.parents[i] else i
  }

  /** Resolve components from a node with `left` links still allowed. */
  function Walk(t: Tree, current: Id, comps: seq<string>, left: nat, follow: bool): Outcome
    requires Closed(t)
    decreases left, |comps|
  {
    if comps == [] then At(current, left)
    else
      var comp, rest := comps[0], comps[1..];
      if comp == ".." then Walk(t, ParentOf(t, current), rest, left, follow)
      else if (current, comp) !in t.children then NotFound
      else
        var next := t.children[(current, comp)];
        match t.nodes[next]
        case Link(target) =>
          if rest == [] && !follow then At(next, left)
          else if left == 0 then Loop
          else Walk(t, if Absolute(target) then t.root else current, Split(target) + rest, left - 1, follow)
        case File => if rest != [] then NotDirectory else At(next, left)
        case Dir => Walk(t, next, rest, left, follow)
  }

  /** The dentries of the tree: every directory is coherent, and a name below it is the mount or the backing binding. */
  ghost predicate Backed(t: Tree, dirs: map<Id, Dentry.Directory>)
    reads dirs.Values
  {
    && (forall i :: i in dirs ==> dirs[i].Valid())
    && (forall i, n :: (i, n) in t.children ==> i in dirs && Under(dirs[i], n) == Some(t.children[(i, n)]))
    && (forall i, n :: i in dirs && Under(dirs[i], n).Some? ==> (i, n) in t.children)
  }

  function Under(d: Dentry.Directory, name: string): Option<Id>
    reads d
  {
    Dentry.Meaning(d.mounted, d.backing, name)
  }

  /** The loop over a queue of components that links rewrite, each looked up through the caches of its directory. */
  method FindTree(root: Id, nodes: map<Id, Node>, parents: map<Id, Id>, dirs: map<Id, Dentry.Directory>, ghost t: Tree,
                  start: Id, path: string, follow: bool) returns (r: Outcome)
    requires t.root == root && t.nodes == nodes && t.parents == parents
    requires Closed(t) && Backed(t, dirs) && start in nodes
    modifies dirs.Values
    ensures Backed(t, dirs)
    ensures path == "" ==> r == At(start, MAX_LINKS)
    ensures path != "" ==> r == Walk(t, if Absolute(path) then root else start, Split(path), MAX_LINKS, follow)
    ensures r.At? ==> r.id in nodes
  {
    hide Split, Absolute, Backed;
    if path == "" {
      return At(start, MAX_LINKS);
    }
    var current := if Absolute(path) then root else start;
    var queue, depth := Split(path), 0;
    ghost var goal := Walk(t, current, queue, MAX_LINKS, follow);
    while queue != []
      invariant 0 <= depth <= MAX_LINKS && current in nodes && Backed(t, dirs)
      invariant Walk(t, current, queue, MAX_LINKS - depth, follow) == goal
      decreases MAX_LINKS - depth, |queue|
    {
      var comp := queue[0];
      queue := queue[1..];
      if comp == ".." {
        current := if current in parents then parents[current] else current;
        continue;
      }
      var child := FindIn(dirs, t, current, comp);
      if child.None? {
        return NotFound;
      }
      var next := child.value;
      match nodes[next]
      case Link(target) =>
        if queue == [] && !follow {
          return At(next, MAX_LINKS - depth);
        }
        if depth + 1 > MAX_LINKS {
          return Loop;
        }
        depth := depth + 1;
        if Absolute(target) {
          current := root;
        }
        queue := Split(target) + queue;
      case File =>
        if queue != [] {
          return NotDirectory;
        }
        current := next;
      case Dir =>
        current := next;
    }
    return At(current, MAX_LINKS - depth);
  }

  /** One lookup: only the caches of that directory change, so the whole tree stays backed. */
  method FindIn(dirs: map<Id, Dentry.Directory>, ghost t: Tree, i: Id, name: string) returns (r: Option<Id>)
    requires Backed(t, dirs)
    modifies dirs.Values
    ensures Backed(t, dirs)
    ensures r == if (i, name) in t.children then Some(t.children[(i, name)]) else None
  {
    if i !in dirs {
      return None;
    }
    r := dirs[i].FindChild(name, false);
  }

  /** More links allowed never change an answer other than too many links. */
  lemma {:induction false} Budget(t: Tree, current: Id, comps: seq<string>, left: nat, follow: bool)
    requires Closed(t)
    ensures var r, r' := Walk(t, current, comps, left, follow), Walk(t, current, comps, left + 1, follow);
      r != Loop ==> r' == if r.At? then At(r.id, r.left + 1) else r
    decreases left, |comps|
  {
    if comps != [] {
      var comp, rest := comps[0], comps[1..];
      if comp == ".." {
        Budget(t, ParentOf(t, current), rest, left, follow);
      } else if (current, comp) in t.children {
        var next := t.children[(current, comp)];
        match t.nodes[next]
        case Link(target) =>
          if left > 0 {
            Budget(t, if Absolute(target) then t.root else current, Split(target) + rest, left - 1, follow);
          }
        case File =>
        case Dir => Budget(t, next, rest, left, follow);
      }
    }
  }

  /** The budget only goes down, by one for each link followed. */
  lemma {:induction false} LeftOver(t: Tree, current: Id, comps: seq<string>, left: nat, follow: bool)
    requires Closed(t)
    ensures var r := Walk(t, current, comps, left, follow); r.At? ==> r.left <= left
    decreases left, |comps|
  {
    if comps != [] {
      var comp, rest := comps[0], comps[1..];
      if comp == ".." {
        LeftOver(t, ParentOf(t, current), rest, left, follow);
      } else if (current, comp) in t.children {
        var next := t.children[(current, comp)];
        match t.nodes[next]
        case Link(target) =>
          if left > 0 {
            LeftOver(t, if Absolute(target) then t.root else current, Split(target) + rest, left - 1, follow);
          }
        case File =>
        case Dir => LeftOver(t, next, rest, left, follow);
      }
    }
  }

  /** Resolving a path is resolving its front and then, from there, its back. */
  lemma {:induction false} Compose(t: Tree, current: Id, xs: seq<string>, ys: seq<string>, left: nat, follow: bool)
    requires Closed(t) && ys != []
    ensures var front := Walk(t, current, xs, left, true);
      Walk(t, current, xs + ys, left, follow)
        == if !front.At? then front
           else if xs != [] && EndsInFile(t, current, xs, left) then NotDirectory
           else Walk(t, front.id, ys, front.left, follow)
    decreases left, |xs|
  {
    if xs == [] {
      assert xs + ys == ys;
    } else {
      var comp, rest := xs[0], xs[1..];
      assert (xs + ys)[0] == comp && (xs + ys)[1..] == rest + ys;
      if comp == ".." {
        Compose(t, ParentOf(t, current), rest, ys, left, follow);
      } else if (current, comp) in t.children {
        var next := t.children[(current, comp)];
        match t.nodes[next]
        case Link(target) =>
          if left > 0 {
            assert Split(target) + (rest + ys) == (Split(target) + rest) + ys;
            Compose(t, if Absolute(target) then t.root else current, Split(target) + rest, ys, left - 1, follow);
          }
        case File =>
        case Dir => Compose(t, next, rest, ys, left, follow);
      }
    }
  }

  /** The last step of the walk entered a file. */
  predicate EndsInFile(t: Tree, current: Id, comps: seq<string>, left: nat)
    requires Closed(t)
    decreases left, |comps|
  {
    if comps == [] then false
    else
      var comp, rest := comps[0], comps[1..];
      if comp == ".." then EndsInFile(t, ParentOf(t, current), rest, left)
      else if (current, comp) !in t.children then false
      else
        match t.nodes[t.children[(current, comp)]]
        case Link(target) => left > 0 && EndsInFile(t, if Absolute(target) then t.root
          else current, Split(target) + rest, left - 1)
        case File => rest == []
        case Dir => EndsInFile(t, t.children[(current, comp)], rest, left)
  }

  /** A link that leads back to itself uses up every budget. */
  lemma {:induction false} SelfLink(t: Tree, d: Id, name: string, target: string, left: nat)
    requires Closed(t) && (d, name) in t.children && name != ".." && t.nodes[t.children[(d, name)]] == Link(target)
    requires !Absolute(target) && Split(target) == [name]
    ensures Walk(t, d, [name], left, true) == Loop
  {
    assert [name][1..] == [] && Split(target) + [] == [name];
    if left > 0 {
      SelfLink(t, d, name, target, left - 1);
    }
  }
}
