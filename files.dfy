/** The file operations a sync issues, and their effect on an abstract
    filesystem that maps paths to contents. Writing overwrites; deleting
    removes a file if it exists and is a no-op otherwise (the existence check
    before unlinking); a cover download is carried out outside this model and
    has no synchronous effect on the files. */
module Files {
  import opened Tracks

  type Path = string
  type FileSystem = map<Path, string>

  datatype FileOp = Write(path: Path, text: string) | Delete(path: Path) | Download(url: string)

  function ApplyOp(fs: FileSystem, op: FileOp): (r: FileSystem)
    ensures op.Write? ==> op.path in r && r[op.path] == op.text
    ensures op.Delete? ==> op.path !in r
    ensures op.Delete? && op.path !in fs ==> r == fs
    ensures forall p :: p in fs && !(op.Delete? && op.path == p) ==> p in r
    ensures forall p :: p in r && !(op.Write? && op.path == p) ==> p in fs && r[p] == fs[p]
  {
    match op
    case Write(p, text) => fs[p := text]
    case Delete(p) => if p in fs then fs - {p} else fs
    case Download(_) => fs
  }

  /** The operations in order. The result imposes their effect: a path the
      sequence touches ends as its last operation on it left it, any other
      path is untouched. */
  function Apply(fs: FileSystem, ops: seq<FileOp>): (r: FileSystem)
    ensures r == Override(fs, EffectOf(ops))
    decreases |ops|
  {
    if ops == [] then
      assert Override(fs, map[]) == fs;
      fs
    else
      OverrideAfterOp(fs, ops[0], EffectOf(ops[1..]));
      Apply(ApplyOp(fs, ops[0]), ops[1..])
  }

  // ---------------------------------------------------------------------
  // A reference description: the last operation on a path decides it.

  /** What one operation decides: `Some(text)` for the written content,
      `None` for a deleted file. */
  function OpEffect(op: FileOp): map<Path, Option<string>>
  {
    match op
    case Write(p, text) => map[p := Some(text)]
    case Delete(p) => map[p := None]
    case Download(_) => map[]
  }

  /** What a whole sequence decides, later operations overriding earlier ones. */
  function EffectOf(ops: seq<FileOp>): map<Path, Option<string>>
    decreases |ops|
  {
    if ops == [] then map[] else OpEffect(ops[0]) + EffectOf(ops[1..])
  }

  /** The filesystem with the decisions of `e` imposed on it. */
  function Override(fs: FileSystem, e: map<Path, Option<string>>): FileSystem
  {
    map p | p in fs.Keys + e.Keys && (p in e ==> e[p].Some?) :: if p in e then e[p].value else fs[p]
  }

  /** A path the effect decides ends as decided; any other path keeps its
      file. */
  lemma OverrideAt(fs: FileSystem, e: map<Path, Option<string>>, p: Path)
    ensures p in e ==> (p in Override(fs, e) <==> e[p].Some?)
    ensures p in e && e[p].Some? ==> Override(fs, e)[p] == e[p].value
    ensures p !in e ==> (p in Override(fs, e) <==> p in fs)
    ensures p !in e && p in fs ==> Override(fs, e)[p] == fs[p]
  {
  }

  /** Imposing an effect after one operation is imposing the operation's
      own effect overridden by it. */
  lemma OverrideAfterOp(fs: FileSystem, op: FileOp, e: map<Path, Option<string>>)
    ensures Override(ApplyOp(fs, op), e) == Override(fs, OpEffect(op) + e)
  {
  }

  /** Running the same operations a second time changes nothing more. */
  lemma ApplyIdempotent(fs: FileSystem, ops: seq<FileOp>)
    ensures Apply(Apply(fs, ops), ops) == Apply(fs, ops)
  {
    // Both sides are `Override` by `EffectOf(ops)`, and imposing the same
    // decisions twice leaves what imposing them once left.
  }
}
