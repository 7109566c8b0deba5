/** The host filesystem as the services see it through `Directory` and `File`.

    A path is a sequence of segments; the root `[]` is an implicit directory and is never
    stored. A tree maps every other existing path to a directory or a file. Two sets of
    paths stand for everything the operating system may veto (permissions, quota, a handle
    held open elsewhere): creating or writing an entry at a refused path fails, and so does
    deleting an undeletable entry. The two are independent, so an entry a call has just
    created may still resist its removal. Each `Directory`/`File` call is given by a
    specification function on trees, and the class `Disk` holds the one mutable tree the
    services change. */
module FileSystem {
  import opened Outcomes

  type Path = seq<string>

  datatype Entry = Directory | File(content: string)

  type Tree = map<Path, Entry>

  function Parent(p: Path): Path
    requires |p| > 0
  {
    p[..|p| - 1]
  }

  /** `Path.Combine(dir, name)`: an empty `name` adds no segment. */
  function Combine(dir: Path, name: string): (p: Path)
    ensures name == "" ==> p == dir
    ensures name != "" ==> |p| == |dir| + 1 && Parent(p) == dir && p[|dir|] == name
  {
    if name == "" then dir else dir + [name]
  }

  /** A path whose last segment is empty is written with a trailing separator: it names a
      directory and never a file. */
  predicate EndsInSeparator(p: Path) {
    |p| > 0 && p[|p| - 1] == ""
  }

  /** `q` is `p` itself or lies somewhere below it. */
  predicate Under(q: Path, p: Path) {
    p <= q
  }

  /** `Directory.Exists`: false for a file. */
  predicate DirExists(t: Tree, p: Path) {
    p == [] || (p in t && t[p] == Directory)
  }

  /** `File.Exists`: false for a directory and for a path with a trailing separator. */
  predicate IsFile(t: Tree, p: Path) {
    p in t && t[p].File? && !EndsInSeparator(p)
  }

  /** Every stored entry hangs under an existing directory. */
  predicate WellFormed(t: Tree) {
    forall p :: p in t ==> |p| > 0 && DirExists(t, Parent(p))
  }

  /** `t2` keeps every entry of `t1` as it was. */
  predicate Extends(t1: Tree, t2: Tree) {
    forall p :: p in t1 ==> p in t2 && t2[p] == t1[p]
  }

  /** `t2` equals `t1` at every path outside `p`. */
  predicate SameOutside(t1: Tree, t2: Tree, p: Path) {
    (forall q :: q in t1 && !Under(q, p) ==> q in t2 && t2[q] == t1[q])
    && (forall q :: q in t2 && !Under(q, p) ==> q in t1)
  }

  /** Whether `Directory.CreateDirectory(p)` can succeed: along the way from the root to `p`
      there is no file, and every missing directory may be created. */
  predicate Creatable(t: Tree, refused: set<Path>, p: Path) {
    forall k :: 1 <= k <= |p| ==>
      (p[..k] in t ==> t[p[..k]] == Directory) && (p[..k] !in t ==> p[..k] !in refused)
  }

  /** `Directory.CreateDirectory(p)`: creates every missing directory on the way to `p`,
      outermost first; it stops with an exception at a file in the way or at a directory it
      may not create, keeping what it created before. The flag says whether it succeeded. */
  function Mkdir(t: Tree, refused: set<Path>, p: Path): (Tree, bool)
    decreases |p|
  {
    if p == [] then (t, true)
    else
      var (t1, ok) := Mkdir(t, refused, Parent(p));
      if !ok then (t1, false)
      else if p in t1 then (t1, t1[p] == Directory)
      else if p in refused then (t1, false)
      else (t1[p := Directory], true)
  }

  /** `File.WriteAllText(p, text)` (and `File.Create`, with empty text): creates or
      overwrites the file; fails when the parent directory is missing, when `p` is a
      directory or ends in a separator, or when the path is refused. */
  function WriteFile(t: Tree, refused: set<Path>, p: Path, text: string): (Tree, bool) {
    if p == [] || !DirExists(t, Parent(p)) || (p in t && t[p] == Directory) || EndsInSeparator(p) || p in refused
    then (t, false)
    else (t[p := File(text)], true)
  }

  /** `File.Delete(p)`: removing a missing file is not an error, but a missing parent
      directory is; a directory or an undeletable file cannot be removed. */
  function DeleteFile(t: Tree, undeletable: set<Path>, p: Path): (Tree, bool) {
    if p == [] || !DirExists(t, Parent(p)) then (t, false)
    else if p !in t then (t, true)
    else if t[p] == Directory || p in undeletable then (t, false)
    else (t - {p}, true)
  }

  /** Some undeletable entry of `t` lies at or below `q`, so a recursive delete cannot
      remove `q`. */
  predicate Pinned(t: Tree, undeletable: set<Path>, q: Path) {
    exists r :: r in t && r in undeletable && Under(r, q)
  }

  /** `t` with nothing left at or below `p`. */
  function Without(t: Tree, p: Path): Tree {
    map q | q in t && !Under(q, p) :: t[q]
  }

  /** `Directory.Delete(p, true)`: fails on a missing directory; otherwise removes every entry
      at or below `p` that is not pinned by an undeletable entry, and fails when anything
      remained. */
  function DeleteTree(t: Tree, undeletable: set<Path>, p: Path): (Tree, bool) {
    if p == [] || !DirExists(t, p) then (t, false)
    else (map q | q in t && (!Under(q, p) || Pinned(t, undeletable, q)) :: t[q], !Pinned(t, undeletable, p))
  }

  /** The files directly inside `p`: what `Directory.GetFiles(p)` enumerates. */
  function ChildFiles(t: Tree, p: Path): set<Path> {
    set q | q in t && |q| == |p| + 1 && Under(q, p) && t[q].File?
  }

  /** What a process bound to directory `p` sees of its direct files: name to content. */
  function FilesIn(t: Tree, p: Path): map<string, string> {
    map name | name in NamesIn(t, p) && p + [name] in t && t[p + [name]].File? :: t[p + [name]].content
  }

  function NamesIn(t: Tree, p: Path): set<string> {
    set q | q in t && |q| == |p| + 1 && Under(q, p) && t[q].File? :: q[|p|]
  }

  // ---------------------------------------------------------------------------------------
  // Properties of Directory.CreateDirectory

  /** `CreateDirectory` never removes or changes an entry, and what it adds are directories
      on the way to `p` that it was allowed to create. */
  lemma {:induction false} MkdirAddsAncestors(t: Tree, refused: set<Path>, p: Path)
    ensures var (t2, ok) := Mkdir(t, refused, p);
      && Extends(t, t2)
      && (forall q :: q in t2 && q !in t ==> 0 < |q| <= |p| && q == p[..|q|] && t2[q] == Directory && q !in refused)
    decreases |p|
  {
    if p != [] {
      MkdirAddsAncestors(t, refused, Parent(p));
    }
  }

  /** `CreateDirectory` succeeds exactly when `p` is creatable, and `p` exists afterwards. */
  lemma {:induction false} MkdirSucceeds(t: Tree, refused: set<Path>, p: Path)
    ensures var (t2, ok) := Mkdir(t, refused, p);
      && (ok <==> Creatable(t, refused, p))
      && (ok ==> DirExists(t2, p))
    decreases |p|
  {
    if p != [] {
      var pp := Parent(p);
      MkdirSucceeds(t, refused, pp);
      MkdirAddsAncestors(t, refused, pp);
      var (t1, ok1) := Mkdir(t, refused, pp);
      assert forall k :: 1 <= k <= |pp| ==> pp[..k] == p[..k];
      if ok1 {
        assert p in t1 ==> p in t && t1[p] == t[p];
        assert p[..|p|] == p;
      } else {
        assert !Creatable(t, refused, p);
      }
    }
  }

  /** `CreateDirectory` keeps the tree well formed. */
  lemma {:induction false} MkdirWellFormed(t: Tree, refused: set<Path>, p: Path)
    requires WellFormed(t)
    ensures WellFormed(Mkdir(t, refused, p).0)
    decreases |p|
  {
    if p != [] {
      var pp := Parent(p);
      MkdirWellFormed(t, refused, pp);
      MkdirSucceeds(t, refused, pp);
      var (t1, ok1) := Mkdir(t, refused, pp);
      if ok1 && p !in t1 && p !in refused {
        var t2 := t1[p := Directory];
        forall q | q in t2 ensures |q| > 0 && DirExists(t2, Parent(q)) {
          if q != p {
            assert DirExists(t1, Parent(q));
          }
        }
      }
    }
  }

  /** On a well-formed tree, creating a directory that exists already changes nothing. */
  lemma {:induction false} MkdirExisting(t: Tree, refused: set<Path>, p: Path)
    requires WellFormed(t) && DirExists(t, p)
    ensures Mkdir(t, refused, p) == (t, true)
    decreases |p|
  {
    if p != [] {
      MkdirExisting(t, refused, Parent(p));
    }
  }

  /** Repeating `CreateDirectory` on what it left behind changes nothing more and ends the
      same way, whether the first call succeeded or stopped half way. */
  lemma {:induction false} MkdirIdempotent(t: Tree, refused: set<Path>, p: Path)
    requires WellFormed(t)
    ensures var (t2, ok) := Mkdir(t, refused, p);
      Mkdir(t2, refused, p) == (t2, ok)
    decreases |p|
  {
    if p != [] {
      var pp := Parent(p);
      MkdirIdempotent(t, refused, pp);
      MkdirSucceeds(t, refused, pp);
      MkdirWellFormed(t, refused, p);
      var (t1, ok1) := Mkdir(t, refused, pp);
      var t2 := Mkdir(t, refused, p).0;
      if t2 != t1 {
        assert DirExists(t2, pp);
        MkdirExisting(t2, refused, pp);
      }
    }
  }

  // ---------------------------------------------------------------------------------------
  // Properties of writing and deleting

  /** A write succeeds exactly in the allowed case and then changes only the file at `p`. */
  lemma WriteFileSpec(t: Tree, refused: set<Path>, p: Path, text: string)
    ensures var (t2, ok) := WriteFile(t, refused, p, text);
      && (ok <==> |p| > 0 && DirExists(t, Parent(p)) && !DirExists(t, p) && !EndsInSeparator(p) && p !in refused)
      && (ok ==> t2 == t[p := File(text)])
      && (!ok ==> t2 == t)
      && (WellFormed(t) ==> WellFormed(t2))
  {
    var (t2, ok) := WriteFile(t, refused, p, text);
    if ok && WellFormed(t) {
      forall q | q in t2 ensures |q| > 0 && DirExists(t2, Parent(q)) {
        if q != p {
          assert DirExists(t, Parent(q));
        }
      }
    }
  }

  /** Deleting a file succeeds exactly when its directory exists and it is not a directory
      or undeletable; it removes just that entry and keeps the tree well formed. */
  lemma DeleteFileSpec(t: Tree, undeletable: set<Path>, p: Path)
    requires WellFormed(t)
    ensures var (t2, ok) := DeleteFile(t, undeletable, p);
      && (ok <==> |p| > 0 && DirExists(t, Parent(p)) && !(p in t && (t[p] == Directory || p in undeletable)))
      && (ok ==> t2 == t - {p})
      && (!ok ==> t2 == t)
      && WellFormed(t2)
  {
    var (t2, ok) := DeleteFile(t, undeletable, p);
    if ok && p in t {
      forall q | q in t2 ensures |q| > 0 && DirExists(t2, Parent(q)) {
        assert DirExists(t, Parent(q));
      }
    }
  }

  /** In a well-formed tree, whatever lies strictly below `p` has `p` as an existing
      directory above it. */
  lemma {:induction false} AncestorExists(t: Tree, p: Path, q: Path)
    requires WellFormed(t) && q in t && Under(q, p) && |q| > |p|
    ensures DirExists(t, p)
    decreases |q|
  {
    var pq := Parent(q);
    assert DirExists(t, pq);
    if |pq| > |p| {
      AncestorExists(t, p, pq);
    } else {
      assert pq == p;
    }
  }

  /** A recursive delete succeeds exactly when `p` is an existing directory with no undeletable
      entry at or below it; it then removes everything at or below `p`. Whatever happens, it
      leaves everything outside `p` and every undeletable entry in place, and keeps the tree well
      formed. */
  lemma DeleteTreeSpec(t: Tree, undeletable: set<Path>, p: Path)
    requires WellFormed(t)
    ensures var (t2, ok) := DeleteTree(t, undeletable, p);
      && (ok <==> p != [] && DirExists(t, p) && !Pinned(t, undeletable, p))
      && (ok ==> t2 == Without(t, p))
      && t2.Keys <= t.Keys
      && SameOutside(t, t2, p)
      && (forall q :: q in t && q in undeletable ==> q in t2 && t2[q] == t[q])
      && WellFormed(t2)
  {
    var (t2, ok) := DeleteTree(t, undeletable, p);
    if p != [] && DirExists(t, p) {
      forall q | q in t2 ensures |q| > 0 && DirExists(t2, Parent(q)) {
        assert DirExists(t, Parent(q));
        var pq := Parent(q);
        if pq != [] && Under(pq, p) {
          assert Under(q, p);
          var r :| r in t && r in undeletable && Under(r, q);
          assert Under(r, pq);
          assert Pinned(t, undeletable, pq);
        }
      }
      if ok {
        assert t2 == Without(t, p);
      }
      forall q | q in t && q in undeletable ensures q in t2 {
        assert Under(q, q);
      }
    }
  }

  /** Removing entries below `p` that are not undeletable changes neither what pins `p` nor
      what is left once everything below `p` is gone. */
  lemma RemoveDeletableBelow(t: Tree, undeletable: set<Path>, gone: set<Path>, p: Path)
    requires forall q :: q in gone ==> q !in undeletable && Under(q, p)
    ensures Pinned(t - gone, undeletable, p) <==> Pinned(t, undeletable, p)
    ensures Without(t - gone, p) == Without(t, p)
  {
    if Pinned(t, undeletable, p) {
      var r :| r in t && r in undeletable && Under(r, p);
      assert r in t - gone;
    }
  }

  // ---------------------------------------------------------------------------------------
  // The mutable filesystem

  /** The host filesystem: one tree that `Directory` and `File` calls change in place. */
  class Disk {
    var entries: Tree
    const refused: set<Path>
    const undeletable: set<Path>

    ghost predicate Valid()
      reads this
    {
      WellFormed(entries)
    }

    constructor (initial: Tree, refused: set<Path>, undeletable: set<Path>)
      requires WellFormed(initial)
      ensures Valid() && entries == initial && this.refused == refused && this.undeletable == undeletable
    {
      entries := initial;
      this.refused := refused;
      this.undeletable := undeletable;
    }

    /** `Directory.Exists(p)`. */
    function DirectoryExists(p: Path): bool
      reads this
    {
      DirExists(entries, p)
    }

    /** `File.Exists(p)`. */
    function FileExists(p: Path): bool
      reads this
    {
      IsFile(entries, p)
    }

    /** `Directory.CreateDirectory(p)`; `ok` is false when it throws. */
    method CreateDirectory(p: Path) returns (ok: bool)
      requires Valid()
      modifies this
      ensures Valid()
      ensures (entries, ok) == Mkdir(old(entries), refused, p)
    {
      MkdirWellFormed(entries, refused, p);
      var (t, k) := Mkdir(entries, refused, p);
      entries, ok := t, k;
    }

    /** `File.WriteAllText(p, text)`, and `File.Create(p)` with empty text. */
    method WriteAllText(p: Path, text: string) returns (ok: bool)
      requires Valid()
      modifies this
      ensures Valid()
      ensures (entries, ok) == WriteFile(old(entries), refused, p, text)
    {
      WriteFileSpec(entries, refused, p, text);
      var (t, k) := WriteFile(entries, refused, p, text);
      entries, ok := t, k;
    }

    /** `File.Delete(p)`. */
    method Delete(p: Path) returns (ok: bool)
      requires Valid()
      modifies this
      ensures Valid()
      ensures (entries, ok) == DeleteFile(old(entries), undeletable, p)
    {
      DeleteFileSpec(entries, undeletable, p);
      var (t, k) := DeleteFile(entries, undeletable, p);
      entries, ok := t, k;
    }

    /** `Directory.Delete(p, true)`. */
    method DeleteDirectory(p: Path) returns (ok: bool)
      requires Valid()
      modifies this
      ensures Valid()
      ensures (entries, ok) == DeleteTree(old(entries), undeletable, p)
    {
      DeleteTreeSpec(entries, undeletable, p);
      var (t, k) := DeleteTree(entries, undeletable, p);
      entries, ok := t, k;
    }

    /** `Directory.GetFiles(p)`: every file directly inside `p`, each once, in an order the
        operating system chooses; throws when `p` is not a directory. */
    method GetFiles(p: Path) returns (r: Outcome<seq<Path>>)
      ensures !DirExists(entries, p) ==> r == Thrown(IOException(p))
      ensures DirExists(entries, p) ==> r.Normal?
      ensures r.Normal? ==> forall q :: q in r.value <==> q in ChildFiles(entries, p)
      ensures r.Normal? ==> forall i, j :: 0 <= i < j < |r.value| ==> r.value[i] != r.value[j]
    {
      if !DirExists(entries, p) {
        return Thrown(IOException(p));
      }
      var remaining := ChildFiles(entries, p);
      var files: seq<Path> := [];
      while remaining != {}
        invariant forall q :: q in files ==> q in ChildFiles(entries, p) && q !in remaining
        invariant forall q :: q in ChildFiles(entries, p) ==> q in files || q in remaining
        invariant remaining <= ChildFiles(entries, p)
        invariant forall i, j :: 0 <= i < j < |files| ==> files[i] != files[j]
        decreases |remaining|
      {
        var q :| q in remaining;
        files := files + [q];
        remaining := remaining - {q};
      }
      r := Normal(files);
    }
  }
}
