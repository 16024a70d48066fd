/**
 * The download directory as a map from path to bytes, POSIX `os.path.join` and
 * `os.path.basename`, and the file operations the downloaders perform.
 */
module Files {
  import opened Text

  newtype byte = b: int | 0 <= b < 256

  /** One effect on the file system: a file opened with "wb" and filled, or `os.remove`. */
  datatype FileOp = Write(path: string, content: seq<byte>) | Delete(path: string)

  /** The state after performing `ops` in order. */
  function Apply(files: map<string, seq<byte>>, ops: seq<FileOp>): map<string, seq<byte>>
    decreases |ops|
  {
    if ops == [] then files
    else
      var next := match ops[0]
        case Write(p, c) => files[p := c]
        case Delete(p) => files - {p};
      Apply(next, ops[1..])
  }

  /** Performing two batches of operations is performing their concatenation. */
  lemma {:induction false} ApplyConcat(files: map<string, seq<byte>>, a: seq<FileOp>, b: seq<FileOp>)
    ensures Apply(files, a + b) == Apply(Apply(files, a), b)
    decreases |a|
  {
    if a == [] {
      assert a + b == b;
    } else {
      assert (a + b)[0] == a[0];
      assert (a + b)[1..] == a[1..] + b;
      var next := match a[0]
        case Write(p, c) => files[p := c]
        case Delete(p) => files - {p};
      ApplyConcat(next, a[1..], b);
    }
  }

  /** The path an operation acts on. */
  function Target(op: FileOp): string {
    match op
    case Write(p, _) => p
    case Delete(p) => p
  }

  /** Paths no operation names keep their old content (or stay absent). */
  lemma {:induction false} ApplyFrame(files: map<string, seq<byte>>, ops: seq<FileOp>, q: string)
    requires forall i :: 0 <= i < |ops| ==> Target(ops[i]) != q
    ensures q in Apply(files, ops) <==> q in files
    ensures q in files ==> Apply(files, ops)[q] == files[q]
    decreases |ops|
  {
    if ops != [] {
      var next := match ops[0]
        case Write(p, c) => files[p := c]
        case Delete(p) => files - {p};
      ApplyFrame(next, ops[1..], q);
    }
  }

  /** `os.path.join(dir, name)` on POSIX. */
  function Join(dir: string, name: string): string {
    if |name| > 0 && name[0] == '/' then name
    else if dir == [] || dir[|dir| - 1] == '/' then dir + name
    else dir + "/" + name
  }

  /** Joining a plain file name to a directory gives a path whose basename is that name. */
  lemma JoinBasename(dir: string, name: string)
    requires '/' !in name && name != []
    ensures EndsWith(Join(dir, name), name) && AfterLast(Join(dir, name), '/') == name
  {
    var r := Join(dir, name);
    assert r[|r| - |name|..] == name;
    BasenameOfSuffix(r, name);
  }

  /** `os.path.basename(path)`: the text after the last `/`. */
  function Basename(path: string): (r: string)
    ensures '/' !in r && EndsWith(path, r)
  {
    AfterLastShape(path, '/');
    AfterLast(path, '/')
  }

  lemma BasenameOfSuffix(r: string, name: string)
    requires '/' !in name && name != []
    requires EndsWith(r, name) && (|r| == |name| || r[|r| - |name| - 1] == '/')
    ensures AfterLast(r, '/') == name
  {
    var b := AfterLast(r, '/');
    AfterLastShape(r, '/');
    var n := |name|;
    // otherwise the `/` just before the shorter of `b` and `name` would lie inside the longer
    if |b| < n {
      assert false;
    } else if |b| > n {
      assert false;
    }
  }

  predicate AllDots(s: string) {
    forall i :: 0 <= i < |s| ==> s[i] == '.'
  }

  /**
   * `os.path.splitext(name)` for a name without `/`: the extension starts at the last
   * dot, unless every character before that dot is itself a dot (".pdf", "..x").
   */
  function SplitExt(name: string): (r: (string, string))
    requires '/' !in name
    ensures r.0 + r.1 == name
  {
    if '.' !in name then (name, [])
    else
      var root := BeforeLast(name, '.');
      BeforeLastShape(name, '.');
      if AllDots(root) then (name, [])
      else
        assert name == root + name[|root|..];
        (root, name[|root|..])
  }

  /**
   * The extension is empty, or a dot followed by no other dot after a root that is not
   * all dots; it is empty only when the name has no dot outside its leading dots.
   */
  lemma SplitExtShape(name: string)
    requires '/' !in name
    ensures var r := SplitExt(name);
      && (r.1 == [] || (r.1[0] == '.' && '.' !in r.1[1..] && !AllDots(r.0)))
      && (r.1 == [] ==> '.' !in name || AllDots(BeforeLast(name, '.')))
  {
    BeforeLastShape(name, '.');
  }

  /** The downloader's whole view of the disk: paths mapped to contents. */
  class FileSystem {
    var files: map<string, seq<byte>>

    constructor (initial: map<string, seq<byte>>)
      ensures files == initial
    {
      files := initial;
    }

    /** `os.path.exists(path)` */
    function Exists(path: string): bool
      reads this
    {
      path in files
    }

    /** `open(path, "wb")`: creates the file or truncates it. */
    method Create(path: string)
      modifies this
      ensures files == old(files)[path := []]
    {
      files := files[path := []];
    }

    /** `f.write(chunk)` on a file opened for writing. */
    method Append(path: string, chunk: seq<byte>)
      requires path in files
      modifies this
      ensures files == old(files)[path := old(files)[path] + chunk]
    {
      files := files[path := files[path] + chunk];
    }

    /** `os.remove(path)` */
    method Remove(path: string)
      requires path in files
      modifies this
      ensures files == old(files) - {path}
    {
      files := files - {path};
    }
  }
}
