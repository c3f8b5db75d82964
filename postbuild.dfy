/**
 * The post-build clean-up of scripts/postbuild.js over an abstract file system: a map
 * from paths (lists of path segments) to what is there, a file or a directory. When
 * .next/standalone exists, the script removes the `sharp` and `typescript` packages
 * from its node_modules, if present, and deletes the Prisma runtime's WebAssembly
 * engines for the databases the application does not use.
 */
module Postbuild {

  import opened Wrappers

  type Path = seq<string>

  datatype Kind = File | Dir

  type Tree = map<Path, Kind>

  //
  // Paths
  //

  function Standalone(cwd: Path): Path { cwd + [".next", "standalone"] }

  function NodeModules(cwd: Path): Path { Standalone(cwd) + ["node_modules"] }

  function Sharp(cwd: Path): Path { NodeModules(cwd) + ["sharp"] }

  function Typescript(cwd: Path): Path { NodeModules(cwd) + ["typescript"] }

  function PrismaRuntime(cwd: Path): Path { NodeModules(cwd) + ["@prisma", "client", "runtime"] }

  predicate IsPrefix(p: Path, q: Path)
  {
    |p| <= |q| && q[..|p|] == p
  }

  function Parent(p: Path): Path
    requires p != []
  {
    p[..|p| - 1]
  }

  /** Every entry other than the root sits in a directory that exists. */
  ghost predicate WellFormed(t: Tree)
  {
    forall p | p in t && p != [] :: Parent(p) in t && t[Parent(p)] == Dir
  }

  //
  // The file-name test
  //

  predicate StartsWith(s: string, prefix: string)
  {
    |prefix| <= |s| && s[..|prefix|] == prefix
  }

  /** `String.prototype.includes`. */
  predicate Contains(s: string, part: string)
  {
    StartsWith(s, part) || (s != [] && Contains(s[1..], part))
  }

  /** `String.prototype.endsWith`. */
  predicate EndsWith(s: string, suffix: string)
  {
    |suffix| <= |s| && s[|s| - |suffix|..] == suffix
  }

  /** A Prisma runtime file to delete: a MySQL, SQLite, SQL Server or CockroachDB engine, as base64 WebAssembly. */
  predicate IsUnusedEngine(name: string): (r: bool)
    ensures r <==>
      && ((exists i :: OccursAt(name, "mysql", i)) || (exists i :: OccursAt(name, "sqlite", i))
          || (exists i :: OccursAt(name, "sqlserver", i)) || (exists i :: OccursAt(name, "cockroachdb", i)))
      && (OccursAt(name, ".wasm-base64.js", |name| - 15) || OccursAt(name, ".wasm-base64.mjs", |name| - 16))
  {
    ContainsAt(name, "mysql");
    ContainsAt(name, "sqlite");
    ContainsAt(name, "sqlserver");
    ContainsAt(name, "cockroachdb");
    EndsWithAt(name, ".wasm-base64.js");
    EndsWithAt(name, ".wasm-base64.mjs");
    && (Contains(name, "mysql") || Contains(name, "sqlite") || Contains(name, "sqlserver")
        || Contains(name, "cockroachdb"))
    && (EndsWith(name, ".wasm-base64.js") || EndsWith(name, ".wasm-base64.mjs"))
  }

  /** `part` occurs in `s` starting at index `i`. */
  predicate OccursAt(s: string, part: string, i: int)
  {
    0 <= i <= |s| - |part| && s[i..i + |part|] == part
  }

  /** `endsWith` holds exactly when the suffix occurs at the last possible position. */
  lemma EndsWithAt(s: string, suffix: string)
    ensures EndsWith(s, suffix) <==> OccursAt(s, suffix, |s| - |suffix|)
  {
  }

  /** `includes` finds the part exactly when it occurs at some position. */
  lemma {:induction false} ContainsAt(s: string, part: string)
    ensures Contains(s, part) <==> exists i :: OccursAt(s, part, i)
  {
    if StartsWith(s, part) {
      assert OccursAt(s, part, 0);
    } else if s == [] {
      assert forall i :: !OccursAt(s, part, i);
    } else {
      ContainsAt(s[1..], part);
      forall i | OccursAt(s, part, i)
        ensures OccursAt(s[1..], part, i - 1)
      {
        assert i != 0;
        assert s[1..][i - 1..i - 1 + |part|] == s[i..i + |part|];
      }
      forall j | OccursAt(s[1..], part, j)
        ensures OccursAt(s, part, j + 1)
      {
        assert s[1..][j..j + |part|] == s[j + 1..j + 1 + |part|];
      }
    }
  }

  /** A MySQL engine as base64 WebAssembly goes. */
  lemma MysqlEngineGoes()
    ensures IsUnusedEngine("query_engine_bg.mysql.wasm-base64.js")
  {
    var name := "query_engine_bg.mysql.wasm-base64.js";
    assert OccursAt(name, "mysql", 16);
    ContainsAt(name, "mysql");
  }

  /** The same engine in another form, plain WebAssembly, stays. */
  lemma PlainWasmStays()
    ensures !IsUnusedEngine("query_engine_bg.mysql.wasm")
  {
  }

  /**
   * `part` does not occur in `s` when the only position of `s` holding `part[k]` is `j`
   * (or there is none) and `part` does not occur at `j - k`.
   */
  lemma {:induction false} AnchorAbsent(s: string, part: string, k: int, j: int)
    requires 0 <= k < |part|
    requires forall i :: 0 <= i < |s| && s[i] == part[k] ==> i == j
    requires !OccursAt(s, part, j - k)
    ensures !Contains(s, part)
  {
    forall i | OccursAt(s, part, i)
      ensures i == j - k
    {
      assert s[i + k] == s[i..i + |part|][k];
    }
    ContainsAt(s, part);
  }

  const PostgresEngine := "query_engine_bg.postgresql.wasm-base64.js"

  /** The PostgreSQL engine, the one the application uses, stays. */
  lemma PostgresEngineStays()
    ensures !IsUnusedEngine(PostgresEngine)
  {
    NoMysql();
    NoSqlite();
    NoSqlserver();
    NoCockroachdb();
  }

  lemma NoMysql()
    ensures !Contains(PostgresEngine, "mysql")
  {
    var s := PostgresEngine;
    assert forall i :: 0 <= i < |s| && s[i] == 'y' ==> i == 4;
    assert s[3] != 'm';
    AnchorAbsent(s, "mysql", 1, 4);
  }

  lemma NoSqlite()
    ensures !Contains(PostgresEngine, "sqlite")
  {
    var s := PostgresEngine;
    assert forall i :: 0 <= i < |s| && s[i] == 'i' ==> i == 9;
    assert s[6] != 's';
    AnchorAbsent(s, "sqlite", 3, 9);
  }

  lemma NoSqlserver()
    ensures !Contains(PostgresEngine, "sqlserver")
  {
    var s := PostgresEngine;
    assert forall i :: 0 <= i < |s| ==> s[i] != 'v';
    AnchorAbsent(s, "sqlserver", 6, -1);
  }

  lemma NoCockroachdb()
    ensures !Contains(PostgresEngine, "cockroachdb")
  {
    var s := PostgresEngine;
    assert forall i :: 0 <= i < |s| ==> s[i] != 'k';
    AnchorAbsent(s, "cockroachdb", 3, -1);
  }

  //
  // The specification of the clean-up
  //

  /** What `rmSync(p, { recursive: true, force: true })` leaves: everything not inside `p`. */
  function WithoutTree(t: Tree, p: Path): (r: Tree)
    ensures forall q :: q in r <==> q in t && !IsPrefix(p, q)
    ensures forall q :: q in r ==> r[q] == t[q]
  {
    map q | q in t && !IsPrefix(p, q) :: t[q]
  }

  /** The state after the first two steps: `sharp` and `typescript` removed when present. */
  function WithoutPackages(t: Tree, cwd: Path): (r: Tree)
    ensures forall p :: p in r ==> p in t && r[p] == t[p]
  {
    var t1 := if Sharp(cwd) in t then WithoutTree(t, Sharp(cwd)) else t;
    if Typescript(cwd) in t1 then WithoutTree(t1, Typescript(cwd)) else t1
  }

  /** `p` is a file directly in directory `dir` whose name marks an unused engine. */
  predicate IsEngineFile(t: Tree, dir: Path, p: Path)
  {
    p in t && t[p] == File && |p| == |dir| + 1 && IsPrefix(dir, p) && IsUnusedEngine(p[|dir|])
  }

  /** The third step: the unused engines deleted from the runtime directory, when it is a directory. */
  function WithoutEngines(t: Tree, runtime: Path): Tree
  {
    if runtime in t && t[runtime] == Dir then map p | p in t && !IsEngineFile(t, runtime, p) :: t[p]
    else t
  }

  /** `sharp`, `typescript` and the Prisma runtime are three separate places. */
  lemma DisjointTargets(cwd: Path, p: Path)
    ensures !(IsPrefix(Sharp(cwd), p) && IsPrefix(Typescript(cwd), p))
    ensures IsPrefix(Sharp(cwd), p) || IsPrefix(Typescript(cwd), p) ==> !IsPrefix(PrismaRuntime(cwd), p)
  {
    var k := |cwd| + 3;
    assert Sharp(cwd)[k] == "sharp" && Typescript(cwd)[k] == "typescript" && PrismaRuntime(cwd)[k] == "@prisma";
    if IsPrefix(Sharp(cwd), p) { assert p[k] == Sharp(cwd)[k]; }
    if IsPrefix(Typescript(cwd), p) { assert p[k] == Typescript(cwd)[k]; }
    if IsPrefix(PrismaRuntime(cwd), p) { assert p[k] == PrismaRuntime(cwd)[k]; }
  }

  /** Why an existing entry disappears in a complete run. */
  predicate Pruned(t: Tree, cwd: Path, p: Path)
  {
    || (Sharp(cwd) in t && IsPrefix(Sharp(cwd), p))
    || (Typescript(cwd) in t && IsPrefix(Typescript(cwd), p))
    || (PrismaRuntime(cwd) in t && t[PrismaRuntime(cwd)] == Dir && IsEngineFile(t, PrismaRuntime(cwd), p))
  }

  /**
   * The file system after a run that completes. Nothing happens without the standalone
   * directory; otherwise exactly the entries `Pruned` names are gone and the rest are as
   * they were.
   */
  function Cleaned(t: Tree, cwd: Path): (r: Tree)
    ensures Standalone(cwd) !in t ==> r == t
    ensures forall p :: p in r ==> p in t && r[p] == t[p]
    ensures forall p :: p in t ==> (p !in r <==> Standalone(cwd) in t && Pruned(t, cwd, p))
  {
    if Standalone(cwd) !in t then t
    else
      var t2 := WithoutPackages(t, cwd);
      PackagesThenEngines(t, cwd);
      WithoutEngines(t2, PrismaRuntime(cwd))
  }

  lemma PackagesThenEngines(t: Tree, cwd: Path)
    ensures var r := WithoutEngines(WithoutPackages(t, cwd), PrismaRuntime(cwd));
      && (forall p :: p in r ==> p in t && r[p] == t[p])
      && (forall p :: p in t ==> (p !in r <==> Pruned(t, cwd, p)))
  {
    var rt := PrismaRuntime(cwd);
    var t2 := WithoutPackages(t, cwd);
    DisjointTargets(cwd, rt);
    assert IsPrefix(rt, rt);
    assert Typescript(cwd) in t <==> Typescript(cwd) in (if Sharp(cwd) in t then WithoutTree(t, Sharp(cwd)) else t) by {
      DisjointTargets(cwd, Typescript(cwd));
      assert IsPrefix(Typescript(cwd), Typescript(cwd));
    }
    assert rt in t2 <==> rt in t;
    forall p | p in t
      ensures p in t2 <==> !((Sharp(cwd) in t && IsPrefix(Sharp(cwd), p)) || (Typescript(cwd) in t && IsPrefix(Typescript(cwd), p)))
    {
    }
    forall p | p in t2
      ensures IsEngineFile(t2, rt, p) <==> IsEngineFile(t, rt, p)
    {
    }
    forall p | p in t && IsEngineFile(t, rt, p)
      ensures p in t2
    {
      DisjointTargets(cwd, p);
    }
  }

  /** Step 3 throws: `readdirSync` on a runtime path that is a file, or `unlinkSync` on an engine name that is a directory. */
  ghost predicate EnginesFail(t: Tree, rt: Path)
  {
    rt in t && (t[rt] == File || exists n :: rt + [n] in t && t[rt + [n]] == Dir && IsUnusedEngine(n))
  }

  /** The runs that stop with an exception. */
  ghost predicate Fails(t: Tree, cwd: Path)
  {
    Standalone(cwd) in t && EnginesFail(WithoutPackages(t, cwd), PrismaRuntime(cwd))
  }

  //
  // The script
  //

  /** The file system, changed in place by the `fs` calls the script makes. */
  class FileSystem {
    var entries: Tree

    ghost predicate Valid()
      reads this
    {
      WellFormed(entries)
    }

    /** `existsSync`. */
    function Exists(p: Path): (r: bool)
      reads this
      ensures r <==> p in entries
    {
      p in entries
    }

    /** `rmSync(p, { recursive: true, force: true })`: `p` and everything under it; nothing when absent. */
    method RemoveTree(p: Path)
      requires Valid()
      modifies this
      ensures Valid()
      ensures entries == WithoutTree(old(entries), p)
      ensures p !in old(entries) ==> entries == old(entries)
    {
      WithoutTreeWellFormed(entries, p);
      if p !in entries {
        RemoveAbsentTree(entries, p);
      }
      entries := WithoutTree(entries, p);
    }

    /** `unlinkSync`: removes a file; throws (ok is false, nothing changes) on a directory or a missing path. */
    method Unlink(p: Path) returns (ok: bool)
      requires Valid()
      modifies this
      ensures Valid()
      ensures ok <==> p in old(entries) && old(entries)[p] == File
      ensures entries == if ok then old(entries) - {p} else old(entries)
    {
      ok := p in entries && entries[p] == File;
      if ok {
        UnlinkFileWellFormed(entries, p);
        entries := entries - {p};
      }
    }

    /** `readdirSync`: the names in a directory; throws (None) on a file or a missing path. */
    function ReadDir(dir: Path): (r: Option<set<string>>)
      reads this
      ensures r.Some? <==> dir in entries && entries[dir] == Dir
      ensures r.Some? ==> forall n :: n in r.value <==> dir + [n] in entries
    {
      if dir in entries && entries[dir] == Dir then
        var names := set p | p in entries && |p| == |dir| + 1 && p[..|dir|] == dir :: p[|dir|];
        assert forall n :: dir + [n] in entries ==> (dir + [n])[..|dir|] == dir && n in names;
        assert forall p :: p in entries && |p| == |dir| + 1 && p[..|dir|] == dir ==> p == dir + [p[|dir|]];
        Some(names)
      else None
    }
  }

  lemma WithoutTreeWellFormed(t: Tree, p: Path)
    requires WellFormed(t)
    ensures WellFormed(WithoutTree(t, p))
  {
    var r := WithoutTree(t, p);
    forall q | q in r && q != []
      ensures Parent(q) in r && r[Parent(q)] == Dir
    {
    }
  }

  /** In a well-formed tree, every ancestor of an entry is present. */
  lemma {:induction false} AncestorPresent(t: Tree, q: Path, n: nat)
    requires WellFormed(t) && q in t && n <= |q|
    ensures q[..n] in t
    decreases |q| - n
  {
    if n < |q| {
      AncestorPresent(t, q, n + 1);
      assert Parent(q[..n + 1]) == q[..n];
    } else {
      assert q[..n] == q;
    }
  }

  /** With `force: true`, removing a path that is absent is no error and changes nothing. */
  lemma RemoveAbsentTree(t: Tree, p: Path)
    requires WellFormed(t) && p !in t
    ensures WithoutTree(t, p) == t
  {
    forall q | q in t
      ensures !IsPrefix(p, q)
    {
      if |p| <= |q| {
        AncestorPresent(t, q, |p|);
      }
    }
  }

  lemma UnlinkFileWellFormed(t: Tree, p: Path)
    requires WellFormed(t) && p in t && t[p] == File
    ensures WellFormed(t - {p})
  {
  }

  /** The state of the loop over the runtime directory: the engines among the names in `done` unlinked. */
  function Partial(t: Tree, rt: Path, done: set<string>): Tree
  {
    map p | p in t && !(IsEngineFile(t, rt, p) && p[|rt|] in done) :: t[p]
  }

  /** One more name of the listing: unlinked when it names an engine file, left alone otherwise. */
  lemma PartialStep(t: Tree, rt: Path, done: set<string>, n: string)
    requires IsUnusedEngine(n) ==> rt + [n] in t && t[rt + [n]] == File
    ensures IsUnusedEngine(n) ==> Partial(t, rt, done) - {rt + [n]} == Partial(t, rt, done + {n})
    ensures !IsUnusedEngine(n) ==> Partial(t, rt, done) == Partial(t, rt, done + {n})
  {
    var q := rt + [n];
    assert q[|rt|] == n && q[..|rt|] == rt;
    forall p | p in t && |p| == |rt| + 1 && IsPrefix(rt, p) && p[|rt|] == n
      ensures p == q
    {
      assert p == p[..|rt|] + [p[|rt|]];
    }
  }

  /** Before, during and after the loop, the state lies between the state it started from and a complete step 3. */
  lemma PartialBetween(t: Tree, rt: Path, done: set<string>)
    requires rt in t && t[rt] == Dir
    ensures var e := Partial(t, rt, done);
      && (forall p :: p in e ==> p in t && e[p] == t[p])
      && (forall p :: p in WithoutEngines(t, rt) ==> p in e)
  {
  }

  /** Once every listed name is done, the loop has done what a complete step 3 does. */
  lemma PartialComplete(t: Tree, rt: Path, done: set<string>)
    requires rt in t && t[rt] == Dir
    requires forall n :: rt + [n] in t ==> n in done
    ensures Partial(t, rt, done) == WithoutEngines(t, rt)
  {
    forall p | IsEngineFile(t, rt, p)
      ensures p[|rt|] in done
    {
      assert p == rt + [p[|rt|]];
    }
  }

  /** A loop that reached the end met no engine name that is a directory. */
  lemma CompleteLoopSucceeds(t: Tree, rt: Path, done: set<string>)
    requires rt in t && t[rt] == Dir
    requires forall n :: rt + [n] in t ==> n in done
    requires forall n :: n in done && IsUnusedEngine(n) ==> rt + [n] in t && t[rt + [n]] == File
    ensures !EnginesFail(t, rt)
  {
  }

  /**
   * Step 3 of `run`: when the Prisma runtime directory exists, unlink every unused
   * engine in it, taking the names in whatever order the directory lists them. `ok` is
   * false when `readdirSync` or `unlinkSync` throws; the loop then stops where it is.
   */
  method PruneEngines(fs: FileSystem, runtimePath: Path) returns (ok: bool)
    requires fs.Valid()
    modifies fs
    ensures fs.Valid()
    ensures ok <==> !EnginesFail(old(fs.entries), runtimePath)
    ensures ok ==> fs.entries == WithoutEngines(old(fs.entries), runtimePath)
    ensures forall p :: p in fs.entries ==> p in old(fs.entries) && fs.entries[p] == old(fs.entries)[p]
    ensures forall p :: p in WithoutEngines(old(fs.entries), runtimePath) ==> p in fs.entries
  {
    ok := true;
    if !fs.Exists(runtimePath) {
      return;
    }
    var files := fs.ReadDir(runtimePath);
    if files.None? {
      return false;
    }
    ghost var t := fs.entries;
    var todo := files.value;
    ghost var done: set<string> := {};
    assert fs.entries == Partial(t, runtimePath, done);
    while todo != {}
      invariant fs.Valid()
      invariant todo + done == files.value && todo !! done
      invariant fs.entries == Partial(t, runtimePath, done)
      invariant forall n :: n in done && IsUnusedEngine(n) ==> runtimePath + [n] in t && t[runtimePath + [n]] == File
      decreases todo
    {
      var file :| file in todo;
      var filePath := runtimePath + [file];
      assert filePath in t && filePath in fs.entries;
      if IsUnusedEngine(file) {
        var removed := fs.Unlink(filePath);
        if !removed {
          PartialBetween(t, runtimePath, done);
          return false;
        }
      }
      PartialStep(t, runtimePath, done, file);
      todo := todo - {file};
      done := done + {file};
    }
    PartialComplete(t, runtimePath, done);
    CompleteLoopSucceeds(t, runtimePath, done);
  }

  /**
   * `run`: when .next/standalone exists, remove `sharp` and `typescript` if present, then
   * prune the Prisma runtime. `ok` is false when a file-system call throws; the run then
   * stops where it is.
   */
  method Run(fs: FileSystem, cwd: Path) returns (ok: bool)
    requires fs.Valid()
    modifies fs
    ensures fs.Valid()
    ensures ok <==> !Fails(old(fs.entries), cwd)
    ensures ok ==> fs.entries == Cleaned(old(fs.entries), cwd)
    ensures forall p :: p in fs.entries ==> p in old(fs.entries) && fs.entries[p] == old(fs.entries)[p]
    ensures forall p :: p in Cleaned(old(fs.entries), cwd) ==> p in fs.entries
  {
    ok := true;
    if !fs.Exists(Standalone(cwd)) {
      return;
    }
    ghost var t := fs.entries;
    var sharpPath := Sharp(cwd);
    if fs.Exists(sharpPath) {
      fs.RemoveTree(sharpPath);
    }
    var tsPath := Typescript(cwd);
    if fs.Exists(tsPath) {
      fs.RemoveTree(tsPath);
    }
    assert fs.entries == WithoutPackages(t, cwd);
    ok := PruneEngines(fs, PrismaRuntime(cwd));
  }
}
