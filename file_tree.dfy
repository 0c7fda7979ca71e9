/** The filesystem the web application runs in, as an abstract tree.
    A directory is the ordered listing `os.listdir` returns, an entry is a
    name with either a directory (its own listing) or a regular file (its
    text) behind it. `Lookup` resolves a relative path, and `IsFile` is
    `os.path.isfile`; the `isdir` tests of the scan are `Dir?` on an entry,
    and `os.path.exists` is `Upload.PathExists`. */
module FileTree {

  datatype Option<T> = None | Some(value: T)

  datatype Node = Dir(children: seq<Entry>) | File(content: string)

  datatype Entry = Entry(name: string, node: Node)

  /** Python's `str.startswith`. */
  predicate StartsWith(s: string, prefix: string) {
    |prefix| <= |s| && s[..|prefix|] == prefix
  }

  /** Python's `str.endswith`. */
  predicate EndsWith(s: string, suffix: string) {
    |suffix| <= |s| && s[|s| - |suffix|..] == suffix
  }

  /** A name a directory listing can hold: one path component that is not
      empty and is not one of the special names "." and "..". */
  predicate ValidName(name: string) {
    name != "" && name != "." && name != ".." && '/' !in name
  }

  /** The names of a listing, in listing order. */
  function Names(es: seq<Entry>): (r: seq<string>)
    ensures |r| == |es|
    ensures forall i :: 0 <= i < |es| ==> r[i] == es[i].name
  {
    if es == [] then [] else Names(es[..|es| - 1]) + [es[|es| - 1].name]
  }

  predicate UniqueNames(es: seq<Entry>) {
    forall i, j :: 0 <= i < j < |es| ==> es[i].name != es[j].name
  }

  /** What a real directory tree satisfies: at every level the names are
      valid path components and no two entries of one listing share a name. */
  predicate WellFormed(es: seq<Entry>)
    decreases es
  {
    UniqueNames(es) &&
    forall i :: 0 <= i < |es| ==>
      ValidName(es[i].name) &&
      (es[i].node.Dir? ==> WellFormed(es[i].node.children))
  }

  /** The node a listing holds under `name`: the first entry with that name. */
  function Find(es: seq<Entry>, name: string): (r: Option<Node>)
    ensures r.Some? <==> name in Names(es)
  {
    if es == [] then None
    else if es[0].name == name then Some(es[0].node)
    else
      NamesCons(es);
      Find(es[1..], name)
  }

  /** The node a relative path leads to from the directory whose listing is
      `es`; the empty path is that directory itself. */
  function Lookup(es: seq<Entry>, path: seq<string>): Option<Node>
    decreases path
  {
    if path == [] then Some(Dir(es))
    else match Find(es, path[0])
      case None => None
      case Some(n) =>
        if |path| == 1 then Some(n)
        else if n.Dir? then Lookup(n.children, path[1..])
        else None
  }

  /** `os.path.isfile`: the path leads to a regular file. */
  predicate IsFile(es: seq<Entry>, path: seq<string>) {
    Lookup(es, path).Some? && Lookup(es, path).value.File?
  }

  /** The names of a listing are its first name followed by the rest's. */
  lemma NamesCons(es: seq<Entry>)
    requires es != []
    ensures Names(es) == [es[0].name] + Names(es[1..])
  {
    assert forall i :: 0 <= i < |es| ==> Names(es)[i] == ([es[0].name] + Names(es[1..]))[i];
  }

  /** One step of a lookup: a path of several components continues in the
      directory its first component names. */
  lemma LookupStep(es: seq<Entry>, path: seq<string>, children: seq<Entry>)
    requires |path| > 1 && Find(es, path[0]) == Some(Dir(children))
    ensures Lookup(es, path) == Lookup(children, path[1..])
  {
  }

  /** The last step of a lookup: a one-component path names an entry of the
      listing. */
  lemma LookupLast(es: seq<Entry>, name: string)
    ensures Lookup(es, [name]) == Find(es, name)
  {
  }

  /** Two directories whose first path component resolves alike resolve the
      whole path alike. */
  lemma LookupSameFirst(a: seq<Entry>, b: seq<Entry>, path: seq<string>)
    requires path != [] && Find(a, path[0]) == Find(b, path[0])
    ensures Lookup(a, path) == Lookup(b, path)
  {
  }

  /** In a listing without repeated names, looking up an entry's name finds
      that entry. */
  lemma {:induction false} FindUnique(es: seq<Entry>, i: nat)
    requires UniqueNames(es)
    requires i < |es|
    ensures Find(es, es[i].name) == Some(es[i].node)
  {
    if i > 0 {
      assert UniqueNames(es[1..]);
      assert es[1..][i - 1] == es[i];
      FindUnique(es[1..], i - 1);
    }
  }

  /** Appending entries to a listing does not change what the names already
      present resolve to. */
  lemma {:induction false} FindAppend(a: seq<Entry>, b: seq<Entry>, name: string)
    ensures Find(a + b, name) == if name in Names(a) then Find(a, name) else Find(b, name)
  {
    if a == [] {
      assert a + b == b;
    } else if a[0].name == name {
      assert Names(a)[0] == name;
    } else {
      assert (a + b)[1..] == a[1..] + b;
      FindAppend(a[1..], b, name);
      NamesCons(a);
    }
  }
}
