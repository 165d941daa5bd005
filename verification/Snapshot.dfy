/**
 Snapshots of the local storage: `save` writes a temporary file and renames it over the target, `load` reads the target.
 Any number of calls in any number of processes run at once, and a process may stop between any two steps.
 */
module Snapshot {
  import opened Common

  // ---------- names of temporary files ----------

  function DigitChar(d: nat): char
    requires d < 10
  {
    ('0' as int + d) as char
  }

  /** A number in decimal, without leading zeros. */
  function Digits(n: nat): (s: string)
    ensures |s| >= 1 && '.' !in s
  {
    if n < 10 then [DigitChar(n)] else Digits(n / 10) + [DigitChar(n % 10)]
  }

  lemma {:induction false} DigitsInjective(m: nat, n: nat)
    requires Digits(m) == Digits(n)
    ensures m == n
  {
    var a, b := Digits(m), Digits(n);
    assert a[|a| - 1] == b[|b| - 1] && a[|a| - 1] == DigitChar(m % 10) && b[|b| - 1] == DigitChar(n % 10);
    if m >= 10 && n >= 10 {
      assert a[..|a| - 1] == Digits(m / 10) && b[..|b| - 1] == Digits(n / 10);
      DigitsInjective(m / 10, n / 10);
    }
  }

  function TempName(path: string, pid: nat, id: nat): string {
    path + ("." + (Digits(pid) + ("." + (Digits(id) + ".tmp"))))
  }

  function FirstDot(s: string): nat {
    if s == "" || s[0] == '.' then 0 else 1 + FirstDot(s[1..])
  }

  lemma {:induction false} DotAfter(a: string, b: string)
    requires '.' !in a
    ensures FirstDot(a + ("." + b)) == |a|
  {
    if a != "" {
      assert (a + ("." + b))[1..] == a[1..] + ("." + b);
      DotAfter(a[1..], b);
    }
  }

  lemma CutAtDot(a: string, b: string, c: string, d: string)
    requires '.' !in a && '.' !in c && a + ("." + b) == c + ("." + d)
    ensures a == c && b == d
  {
    DotAfter(a, b);
    DotAfter(c, d);
    var s, t := a + ("." + b), c + ("." + d);
    assert a == s[..|a|] && c == t[..|c|];
    assert b == s[|a| + 1..] && d == t[|c| + 1..];
  }

  /** Calls that differ in process or in counter write to different files, and none writes to the target. */
  lemma TempNamesDiffer(path: string, pid: nat, id: nat, pid': nat, id': nat)
    ensures TempName(path, pid, id) != path
    ensures TempName(path, pid, id) == TempName(path, pid', id') ==> pid == pid' && id == id'
  {
    assert |TempName(path, pid, id)| > |path|;
    if TempName(path, pid, id) == TempName(path, pid', id') {
      var s := "." + (Digits(pid) + ("." + (Digits(id) + ".tmp")));
      var t := "." + (Digits(pid') + ("." + (Digits(id') + ".tmp")));
      assert s == (path + s)[|path|..] && t == (path + t)[|path|..];
      assert s[1..] == Digits(pid) + ("." + (Digits(id) + ".tmp"));
      assert t[1..] == Digits(pid') + ("." + (Digits(id') + ".tmp"));
      CutAtDot(Digits(pid), Digits(id) + ".tmp", Digits(pid'), Digits(id') + ".tmp");
      DigitsInjective(pid, pid');
      assert "." + "tmp" == ".tmp";
      CutAtDot(Digits(id), "tmp", Digits(id'), "tmp");
      DigitsInjective(id, id');
    }
  }

  // ---------- calls ----------

  /** Where a `save` call is. `id` is its number in its process, `inode` the file it has open or has written. */
  datatype Stage =
    | Starting
    | MadeDirectory
    | Named(id: nat)
    | Writing(id: nat, inode: nat, written: nat)
    | Closed(id: nat, inode: nat)
    | Removing(id: nat)
    | Succeeded
    | Failed
    | Stopped

  datatype Save = Save(pid: nat, snapshot: string, stage: Stage) {
    /** The call has taken a number and is not over. */
    predicate Active() { stage.Named? || stage.Writing? || stage.Closed? || stage.Removing? }

    /** The call has its temporary file. */
    predicate HasFile() { stage.Writing? || stage.Closed? }
  }

  datatype LoadResult = Loaded(snapshot: string) | LoadError

  // ---------- the file system ----------

  class Storage {
    const path: string
    /** The directory, the contents of files, and how many there have been. */
    var dir: map<string, nat>
    var data: map<nat, string>
    var nextInode: nat
    /** `nextTempId` of every running process. */
    var counters: map<nat, nat>
    var saves: seq<Save>

    ghost const initial: Option<string>
    /** The calls whose rename has happened, in that order. */
    ghost var installed: seq<nat>
    /** The contents of every file that is or was the target. */
    ghost var published: map<nat, string>

    /** The temporary file of call `i`. */
    function TempOf(s: Save): string
      requires s.Active()
    {
      TempName(path, s.pid, s.stage.id)
    }

    /** What the target holds, if there is one. */
    function Target(): Option<string>
      requires path in dir ==> dir[path] in data
      reads `dir, `data
    {
      if path in dir then Some(data[dir[path]]) else None
    }

    /** What the target is promised to hold: the snapshot installed last. */
    ghost function Expected(): Option<string>
      requires forall k :: 0 <= k < |installed| ==> installed[k] < |saves|
      reads `installed, `saves
    {
      if installed == [] then initial else Some(saves[installed[|installed| - 1]].snapshot)
    }

    /** The directory names existing files, each once; the target is published, and no other file named there is. */
    ghost predicate Disk()
      reads `dir, `data, `nextInode, `published
    {
      && (forall name :: name in dir ==> dir[name] in data)
      && (forall inode :: inode in data ==> inode < nextInode)
      && (forall n, m :: n in dir && m in dir && dir[n] == dir[m] ==> n == m)
      && (forall inode :: inode in published ==> inode in data && data[inode] == published[inode])
      && (forall name :: name in dir ==> (dir[name] in published <==> name == path))
    }

    /** Calls under way have different numbers, and so different files. */
    ghost predicate Numbered()
      reads `counters, `saves
    {
      && (forall i :: 0 <= i < |saves| && saves[i].Active() ==>
            saves[i].pid in counters && saves[i].stage.id < counters[saves[i].pid])
      && (forall i, j ::
            0 <= i < j < |saves| && saves[i].Active() && saves[j].Active() && saves[i].pid == saves[j].pid ==>
            saves[i].stage.id != saves[j].stage.id)
    }

    /** The temporary file of a call holds what the call has written of its snapshot. */
    ghost predicate Written(s: Save)
      requires s.HasFile()
      reads `dir, `data
    {
      && TempOf(s) in dir && dir[TempOf(s)] == s.stage.inode && s.stage.inode in data
      && if s.stage.Writing?
         then s.stage.written <= |s.snapshot| && data[s.stage.inode] == s.snapshot[..s.stage.written]
         else data[s.stage.inode] == s.snapshot
    }

    ghost predicate AllWritten()
      reads `dir, `data, `saves
    {
      forall i :: 0 <= i < |saves| && saves[i].HasFile() ==> Written(saves[i])
    }

    /** The calls that succeeded are those whose rename happened, and the target is what the last of them was given. */
    ghost predicate Installed()
      reads `dir, `data, `saves, `installed
    {
      && (forall k :: 0 <= k < |installed| ==> installed[k] < |saves| && saves[installed[k]].stage == Succeeded)
      && (forall i :: 0 <= i < |saves| && saves[i].stage == Succeeded ==> i in installed)
      && (forall k, l :: 0 <= k < l < |installed| ==> installed[k] != installed[l])
      && (path in dir ==> dir[path] in data) && Target() == Expected()
    }

    /** `snapshot` was the target at first, or was passed to some `save`. */
    ghost predicate Complete(snapshot: string)
      reads `saves
    {
      Some(snapshot) == initial || exists i :: 0 <= i < |saves| && saves[i].snapshot == snapshot
    }

    /** Whatever was the target once was a complete snapshot. */
    ghost predicate Published()
      reads `published, `saves
    {
      forall inode :: inode in published ==> Complete(published[inode])
    }

    ghost predicate Valid()
      reads this
    {
      Disk() && Numbered() && AllWritten() && Installed() && Published()
    }

    /** The files of all calls but `i` hold what they should. */
    ghost predicate OthersWritten(i: nat)
      reads `dir, `data, `saves
    {
      forall k :: 0 <= k < |saves| && k != i && saves[k].HasFile() ==> Written(saves[k])
    }

    constructor (path: string, content: Option<string>)
      ensures Valid() && saves == [] && counters == map[] && Target() == content && installed == [] && this.path == path
    {
      this.path := path;
      dir := if content.Some? then map[path := 0] else map[];
      data := if content.Some? then map[0 := content.value] else map[];
      nextInode, counters, saves := 1, map[], [];
      initial, installed := content, [];
      published := if content.Some? then map[0 := content.value] else map[];
    }

    /** Two calls under way never have the same file. */
    lemma DifferentFiles(i: nat, j: nat)
      requires Disk() && Numbered() && AllWritten() && i != j && i < |saves| && j < |saves|
      requires saves[i].Active() && saves[j].Active()
      ensures TempOf(saves[i]) != TempOf(saves[j]) && TempOf(saves[i]) != path
      ensures saves[i].HasFile() && saves[j].HasFile() ==> saves[i].stage.inode != saves[j].stage.inode
    {
      TempNamesDiffer(path, saves[i].pid, saves[i].stage.id, saves[j].pid, saves[j].stage.id);
      assert saves[i].HasFile() ==> Written(saves[i]);
      assert saves[j].HasFile() ==> Written(saves[j]);
    }

    // ----- steps that touch no file -----

    /** Call `i` moves on, with its file as the new stage wants it. */
    method SetStage(i: nat, stage: Stage)
      requires i < |saves| && Numbered() && OthersWritten(i) && Installed() && Published()
      requires saves[i].stage != Succeeded && stage != Succeeded
      requires var s := saves[i].(stage := stage);
        (s.Active() ==> saves[i].Active() && stage.id == saves[i].stage.id) && (s.HasFile() ==> Written(s))
      modifies `saves
      ensures Numbered() && AllWritten() && Installed() && Published() && Target() == old(Target())
      ensures saves == old(saves)[i := old(saves)[i].(stage := stage)]
    {
      hide Written;
      saves := saves[i := saves[i].(stage := stage)];
      assert forall k :: 0 <= k < |saves| && k != i ==> saves[k] == old(saves)[k];
      assert forall k :: 0 <= k < |saves| ==> saves[k].snapshot == old(saves)[k].snapshot;
    }

    method Advance(i: nat, stage: Stage)
      requires Valid() && i < |saves| && saves[i].stage != Succeeded && stage != Succeeded
      requires saves[i].(stage := stage).Active() ==> saves[i].Active() && stage.id == saves[i].stage.id
      requires !stage.Writing? && !stage.Closed?
      modifies `saves
      ensures Valid() && Target() == old(Target()) && saves == old(saves)[i := old(saves)[i].(stage := stage)]
    {
      hide Disk, Numbered, Written, Installed, Published;
      SetStage(i, stage);
    }

    method StartProcess(pid: nat)
      requires Valid() && pid !in counters
      modifies `counters
      ensures Valid() && counters == old(counters)[pid := 0]
    {
      hide Disk, AllWritten, Installed;
      counters := counters[pid := 0];
    }

    method BeginSave(pid: nat, snapshot: string) returns (i: nat)
      requires Valid() && pid in counters
      modifies `saves
      ensures Valid() && i == |old(saves)| && saves == old(saves) + [Save(pid, snapshot, Starting)]
    {
      hide Disk;
      i := |saves|;
      saves := saves + [Save(pid, snapshot, Starting)];
      assert forall k :: 0 <= k < i ==> saves[k] == old(saves)[k];
    }

    method MakeDirectory(i: nat, ok: bool)
      requires Valid() && i < |saves| && saves[i].stage == Starting
      modifies `saves
      ensures Valid() && saves == old(saves)[i := old(saves)[i].(stage := if ok then MadeDirectory else Failed)]
    {
      Advance(i, if ok then MadeDirectory else Failed);
    }

    /** The call takes the next number of its process. */
    method TakeNumber(i: nat)
      requires Valid() && i < |saves| && saves[i].stage == MadeDirectory && saves[i].pid in counters
      modifies `saves, `counters
      ensures Valid() && saves == old(saves)[i := old(saves)[i].(stage := Named(old(counters)[old(saves)[i].pid]))]
      ensures counters == old(counters)[old(saves)[i].pid := old(counters)[old(saves)[i].pid] + 1]
    {
      hide Disk;
      var pid := saves[i].pid;
      var id := counters[pid];
      counters := counters[pid := id + 1];
      saves := saves[i := saves[i].(stage := Named(id))];
      assert forall k :: 0 <= k < |saves| && k != i ==> saves[k] == old(saves)[k];
      assert forall k :: 0 <= k < |saves| ==> saves[k].snapshot == old(saves)[k].snapshot;
    }

    static function StoppedIf(s: Save, pid: nat): Save {
      if s.pid == pid && s.stage != Succeeded && s.stage != Failed then s.(stage := Stopped) else s
    }

    /** No call succeeds or stops having succeeded. */
    twostate lemma InstalledKept()
      requires old(Installed()) && installed == old(installed) && dir == old(dir) && data == old(data)
      requires |saves| == |old(saves)|
      requires forall i :: 0 <= i < |saves| ==>
        && saves[i].snapshot == old(saves)[i].snapshot
        && (saves[i].stage == Succeeded <==> old(saves)[i].stage == Succeeded)
      ensures Installed()
    {
    }

    /** A process stops: none of its calls does anything more, and what they left stays. */
    method StopProcess(pid: nat)
      requires Valid() && pid in counters
      modifies `saves, `counters
      ensures Valid() && counters == old(counters) - {pid} && |saves| == |old(saves)|
      ensures forall i :: 0 <= i < |saves| ==> saves[i] == StoppedIf(old(saves)[i], pid)
    {
      hide Disk, Written, Installed;
      counters := counters - {pid};
      var stopped := seq(|saves|, i requires 0 <= i < |saves| reads this => StoppedIf(saves[i], pid));
      assert forall k :: 0 <= k < |saves| ==>
        stopped[k] == StoppedIf(saves[k], pid) && stopped[k].snapshot == saves[k].snapshot;
      saves := stopped;
      InstalledKept();
    }

    // ----- steps on files -----

    lemma TargetElsewhere()
      requires Disk()
      ensures path in dir ==> dir[path] in data && dir[path] in published
      ensures forall name :: name in dir && name != path ==> dir[name] !in published
    {
    }

    /** The file of call `i` is neither the target nor the file of another call. */
    lemma OwnFile(i: nat)
      requires Disk() && Numbered() && AllWritten() && i < |saves| && saves[i].Active()
      ensures TempOf(saves[i]) != path
      ensures saves[i].HasFile() ==> Written(saves[i]) && saves[i].stage.inode !in published
      ensures forall j :: 0 <= j < |saves| && j != i && saves[j].HasFile() ==>
        TempOf(saves[j]) != TempOf(saves[i]) && saves[j].stage.inode in data
        && (TempOf(saves[i]) in dir ==> dir[TempOf(saves[i])] != saves[j].stage.inode)
    {
      TempNamesDiffer(path, saves[i].pid, saves[i].stage.id, 0, 0);
      assert saves[i].HasFile() ==> Written(saves[i]);
      forall j | 0 <= j < |saves| && j != i && saves[j].HasFile()
        ensures TempOf(saves[j]) != TempOf(saves[i]) && saves[j].stage.inode in data
        ensures TempOf(saves[i]) in dir ==> dir[TempOf(saves[i])] != saves[j].stage.inode
      {
        DifferentFiles(i, j);
        assert Written(saves[j]);
      }
    }

    /** `std::ofstream` with `trunc`: a file left by a process that stopped is emptied, otherwise there is a new one. */
    method CreateOrTruncate(name: string) returns (inode: nat)
      requires Disk() && name != path
      modifies `dir, `data, `nextInode
      ensures Disk() && data == old(data)[inode := ""] && dir == old(dir)[name := inode]
      ensures inode !in published
      ensures inode in old(data) ==> name in old(dir) && old(dir)[name] == inode
    {
      if name in dir {
        inode := dir[name];
      } else {
        inode := nextInode;
        nextInode := nextInode + 1;
        dir := dir[name := inode];
      }
      data := data[inode := ""];
    }

    method CreateFor(i: nat) returns (inode: nat)
      requires Valid() && i < |saves| && saves[i].stage.Named?
      modifies `dir, `data, `nextInode
      ensures Disk() && OthersWritten(i) && Installed() && Target() == old(Target())
      ensures TempOf(saves[i]) in dir && dir[TempOf(saves[i])] == inode && inode in data && data[inode] == ""
      ensures dir == old(dir)[TempOf(saves[i]) := inode]
    {
      hide Disk, Numbered, Published, TempOf;
      OwnFile(i);
      TargetElsewhere();
      inode := CreateOrTruncate(TempOf(saves[i]));
    }

    method OpenTemp(i: nat, ok: bool)
      requires Valid() && i < |saves| && saves[i].stage.Named?
      modifies `saves, `dir, `data, `nextInode
      ensures Valid() && Target() == old(Target()) && |saves| == |old(saves)|
      ensures !ok ==> saves == old(saves)[i := old(saves)[i].(stage := Failed)]
      ensures ok ==> saves[i].stage.Writing? && saves[i].stage.written == 0
      ensures ok ==> saves == old(saves)[i := old(saves)[i].(stage := saves[i].stage)]
      ensures ok ==> saves[i].stage.id == old(saves)[i].stage.id
      ensures dir == if ok then old(dir)[TempOf(saves[i]) := saves[i].stage.inode] else old(dir)
    {
      hide Disk, Numbered, Installed, Published;
      if !ok {
        Advance(i, Failed);
        return;
      }
      var inode := CreateFor(i);
      SetStage(i, Writing(saves[i].stage.id, inode, 0));
    }

    /** Bytes written to the file of a call change nothing else. */
    method WriteFile(i: nat, n: nat)
      requires Valid() && i < |saves| && saves[i].stage.Writing? && n <= |saves[i].snapshot|
      modifies `data
      ensures Disk() && OthersWritten(i) && Installed() && Target() == old(Target())
      ensures data == old(data)[saves[i].stage.inode := saves[i].snapshot[..n]]
      ensures TempOf(saves[i]) in dir && dir[TempOf(saves[i])] == saves[i].stage.inode
    {
      OwnFile(i);
      TargetElsewhere();
      hide TempOf;
      data := data[saves[i].stage.inode := saves[i].snapshot[..n]];
    }

    /** Some more of the snapshot reaches the file. */
    method WriteSome(i: nat, n: nat)
      requires Valid() && i < |saves| && saves[i].stage.Writing? && saves[i].stage.written <= n <= |saves[i].snapshot|
      modifies `saves, `data
      ensures Valid() && Target() == old(Target())
      ensures saves == old(saves)[i := old(saves)[i].(stage := old(saves)[i].stage.(written := n))]
      ensures data == old(data)[old(saves)[i].stage.inode := old(saves)[i].snapshot[..n]]
    {
      hide Disk, Numbered, Installed, Published;
      WriteFile(i, n);
      SetStage(i, saves[i].stage.(written := n));
    }

    /** `close`: all of the snapshot is in the file, or writing failed somewhere. */
    method Close(i: nat, ok: bool, n: nat)
      requires Valid() && i < |saves| && saves[i].stage.Writing? && saves[i].stage.written <= n <= |saves[i].snapshot|
      modifies `saves, `data
      ensures Valid() && Target() == old(Target())
      ensures saves == old(saves)[i := old(saves)[i].(stage :=
        if ok then Closed(old(saves)[i].stage.id, old(saves)[i].stage.inode) else Removing(old(saves)[i].stage.id))]
      ensures data ==
        old(data)[old(saves)[i].stage.inode := old(saves)[i].snapshot[..if ok then |saves[i].snapshot| else n]]
    {
      hide Disk, Numbered, Installed, Published;
      if !ok {
        WriteSome(i, n);
        Advance(i, Removing(saves[i].stage.id));
        return;
      }
      WriteFile(i, |saves[i].snapshot|);
      assert saves[i].snapshot[..|saves[i].snapshot|] == saves[i].snapshot;
      SetStage(i, Closed(saves[i].stage.id, saves[i].stage.inode));
    }

    /** The file at `name` becomes the target, in one step. */
    method Replace(name: string)
      requires Disk() && name in dir && name != path
      modifies `dir, `published
      ensures Disk() && dir == (old(dir) - {name})[path := old(dir)[name]]
      ensures published == old(published)[old(dir)[name] := data[old(dir)[name]]]
    {
      var inode := dir[name];
      dir := (dir - {name})[path := inode];
      published := published[inode := data[inode]];
    }

    lemma OthersNotTarget(i: nat)
      requires Disk() && Numbered() && AllWritten()
      ensures forall j :: 0 <= j < |saves| && saves[j].HasFile() ==> TempOf(saves[j]) != path
    {
      forall j | 0 <= j < |saves| && saves[j].HasFile() ensures TempOf(saves[j]) != path {
        TempNamesDiffer(path, saves[j].pid, saves[j].stage.id, 0, 0);
      }
    }

    method ReplaceFor(i: nat)
      requires Valid() && i < |saves| && saves[i].stage.Closed?
      modifies `dir, `published
      ensures Disk() && OthersWritten(i) && Published()
      ensures path in dir && dir[path] in data && data[dir[path]] == saves[i].snapshot
      ensures old(published).Keys <= published.Keys
      ensures dir == (old(dir) - {TempOf(saves[i])})[path := saves[i].stage.inode]
    {
      OwnFile(i);
      OthersNotTarget(i);
      hide Disk, TempOf;
      Replace(TempOf(saves[i]));
    }

    /** The call whose rename has happened has succeeded. */
    method Succeed(i: nat)
      requires i < |saves| && Numbered() && OthersWritten(i) && Published() && saves[i].stage.Closed?
      requires forall k :: 0 <= k < |installed| ==> installed[k] < |saves| && saves[installed[k]].stage == Succeeded
      requires forall k :: 0 <= k < |saves| && saves[k].stage == Succeeded ==> k in installed
      requires forall k, l :: 0 <= k < l < |installed| ==> installed[k] != installed[l]
      requires path in dir && dir[path] in data && data[dir[path]] == saves[i].snapshot
      modifies `saves, `installed
      ensures Numbered() && AllWritten() && Installed() && Published()
      ensures saves == old(saves)[i := old(saves)[i].(stage := Succeeded)] && installed == old(installed) + [i]
    {
      hide Written;
      saves := saves[i := saves[i].(stage := Succeeded)];
      installed := installed + [i];
      assert forall k :: 0 <= k < |saves| && k != i ==> saves[k] == old(saves)[k];
      assert forall k :: 0 <= k < |saves| ==> saves[k].snapshot == old(saves)[k].snapshot;
    }

    /** `rename`, the only step that changes the target; if it succeeds the target is the whole snapshot of the call. */
    method Rename(i: nat, ok: bool)
      requires Valid() && i < |saves| && saves[i].stage.Closed?
      modifies `saves, `dir, `published, `installed
      ensures Valid() && (path in dir ==> dir[path] in data)
      ensures Target() == if ok then Some(old(saves)[i].snapshot) else old(Target())
      ensures saves ==
        old(saves)[i := old(saves)[i].(stage := if ok then Succeeded else Removing(old(saves)[i].stage.id))]
      ensures installed == old(installed) + if ok then [i] else []
      ensures old(published).Keys <= published.Keys
      ensures dir == if ok then
        (old(dir) - {TempOf(old(saves)[i])})[path := old(saves)[i].stage.inode] else old(dir)
    {
      hide Disk, Numbered, Published;
      if !ok {
        Advance(i, Removing(saves[i].stage.id));
        return;
      }
      ReplaceFor(i);
      Succeed(i);
    }

    method Unlink(name: string)
      requires Disk() && name != path
      modifies `dir
      ensures Disk() && dir == old(dir) - {name}
    {
      dir := dir - {name};
    }

    /** The temporary file of a call that failed is removed, if that works. */
    method Remove(i: nat, ok: bool)
      requires Valid() && i < |saves| && saves[i].stage.Removing?
      modifies `saves, `dir
      ensures Valid() && Target() == old(Target())
      ensures saves == old(saves)[i := old(saves)[i].(stage := Failed)]
      ensures dir == old(dir) - if ok then {TempOf(old(saves)[i])} else {}
    {
      hide Disk, Numbered, Published;
      if ok {
        OwnFile(i);
        Unlink(TempOf(saves[i]));
      }
      Advance(i, Failed);
    }

    /** At any moment the target is absent or holds one complete snapshot, the one installed last. */
    lemma TargetIsComplete()
      requires Valid()
      ensures Target() == Expected()
      ensures Target().Some? ==> Complete(Target().value)
    {
    }

    // ----- load -----

    /** Opening the target for reading; the file that is opened is read even if the target is replaced meanwhile. */
    method OpenTarget(ok: bool) returns (inode: Option<nat>)
      requires Valid()
      ensures inode.Some? ==> ok && inode.value in published && Target() == Some(published[inode.value])
      ensures inode == None ==> !ok || path !in dir
    {
      inode := if ok && path in dir then Some(dir[path]) else None;
    }

    method ReadOpened(inode: nat, ok: bool) returns (r: LoadResult)
      requires Valid() && inode in published
      ensures if ok then r == Loaded(published[inode]) && Complete(r.snapshot) else r == LoadError
    {
      r := if ok then Loaded(data[inode]) else LoadError;
    }

    /** When the target cannot be opened: an absent one counts as an empty store. */
    method CannotOpen(existsKnown: bool) returns (r: LoadResult)
      ensures r == if path !in dir && existsKnown then Loaded("{}") else LoadError
    {
      r := if path !in dir && existsKnown then Loaded("{}") else LoadError;
    }

    // ----- one call at a time -----

    /** `save`, with the outcome of each step it takes, while no other call takes one. */
    method SaveAlone(pid: nat, snapshot: string, directory: bool, open: bool, written: bool, rename: bool, remove: bool)
      returns (ok: bool)
      requires Valid() && pid in counters
      modifies this
      ensures Valid() && (path in dir ==> dir[path] in data)
      ensures ok == (directory && open && written && rename)
      ensures Target() == if ok then Some(snapshot) else old(Target())
      // no temporary file is left, unless it could not be removed
      ensures ok || remove ==> dir.Keys <= old(dir.Keys) + {path}
    {
      hide Numbered, AllWritten, Installed, Published;
      var i := BeginSave(pid, snapshot);
      MakeDirectory(i, directory);
      if !directory {
        return false;
      }
      TakeNumber(i);
      OpenTemp(i, open);
      if !open {
        return false;
      }
      Close(i, written, 0);
      if !written {
        Remove(i, remove);
        return false;
      }
      Rename(i, rename);
      if !rename {
        Remove(i, remove);
        return false;
      }
      ok := true;
    }

    method LoadAlone(open: bool, read: bool, existsKnown: bool) returns (r: LoadResult)
      requires Valid()
      ensures Target().Some? ==> r == if open && read then Loaded(Target().value) else LoadError
      ensures Target() == None ==> r == if existsKnown then Loaded("{}") else LoadError
    {
      TargetIsComplete();
      var inode := OpenTarget(open);
      if inode == None {
        r := CannotOpen(existsKnown);
      } else {
        r := ReadOpened(inode.value, read);
      }
    }
  }

  // ---------- runs ----------

  datatype Step =
    | StartProcess(pid: nat)
    | StopProcess(pid: nat)
    | BeginSave(pid: nat, snapshot: string)
    | MakeDirectory(i: nat, ok: bool)
    | TakeNumber(i: nat)
    | OpenTemp(i: nat, ok: bool)
    | WriteSome(i: nat, n: nat)
    | Close(i: nat, ok: bool, n: nat)
    | Rename(i: nat, ok: bool)
    | Remove(i: nat, ok: bool)
    | OpenTarget(ok: bool)
    | FinishLoad(k: nat, ok: bool)

  predicate InOrder(stage: Stage, step: Step) {
    match step
    case MakeDirectory(_, _) => stage == Starting
    case TakeNumber(_) => stage == MadeDirectory
    case OpenTemp(_, _) => stage.Named?
    case WriteSome(_, n) => stage.Writing? && stage.written <= n
    case Close(_, _, n) => stage.Writing? && stage.written <= n
    case Rename(_, _) => stage.Closed?
    case Remove(_, _) => stage.Removing?
    case _ => false
  }

  /** What every step keeps: what was published, and what the calls were given. */
  twostate predicate Keeps(storage: Storage)
    reads storage
  {
    && (old(storage.path in storage.dir) ==> storage.path in storage.dir)
    && old(storage.published).Keys <= storage.published.Keys && |old(storage.saves)| <= |storage.saves|
    && forall i :: 0 <= i < |old(storage.saves)| ==> storage.saves[i].snapshot == old(storage.saves)[i].snapshot
  }

  /** What a step makes of its call; one of a stopped process, or that writes beyond the snapshot, changes nothing. */
  ghost predicate Advanced(s: Save, running: bool, step: Step, s': Save) {
    && s' == s.(stage := s'.stage)
    && match step
       case MakeDirectory(_, ok) => s'.stage == if ok then Stage.MadeDirectory else Failed
       case TakeNumber(_) => if running then s'.stage.Named? else s' == s
       case OpenTemp(_, ok) =>
         if ok then s.stage.Named? && s'.stage.Writing? && s'.stage.id == s.stage.id && s'.stage.written == 0
         else s'.stage == Failed
       case WriteSome(_, n) =>
         s.stage.Writing? && s'.stage == if n <= |s.snapshot| then s.stage.(written := n) else s.stage
       case Close(_, ok, n) =>
         s.stage.Writing? && s'.stage == if n > |s.snapshot| then s.stage
           else if ok then Closed(s.stage.id, s.stage.inode) else Removing(s.stage.id)
       case Rename(_, ok) => s.stage.Closed? && s'.stage == if ok then Succeeded else Removing(s.stage.id)
       case Remove(_, _) => s'.stage == Failed
       case _ => false
  }

  /** The calls, and the processes running. */
  datatype Moment = Moment(saves: seq<Save>, running: set<nat>)

  ghost function Now(storage: Storage): Moment
    reads storage
  {
    Moment(storage.saves, storage.counters.Keys)
  }

  /** What a step makes of all calls and processes. */
  ghost predicate Moved(m: Moment, step: Step, m': Moment) {
    var saves, saves' := m.saves, m'.saves;
    match step
    case StartProcess(pid) => m' == m.(running := m.running + {pid})
    case StopProcess(pid) =>
      && m'.running == m.running - {pid} && |saves'| == |saves|
      && forall i :: 0 <= i < |saves| ==>
           saves'[i] == if pid in m.running then Storage.StoppedIf(saves[i], pid) else saves[i]
    case BeginSave(pid, snapshot) =>
      m' == m.(saves := saves + if pid in m.running then [Save(pid, snapshot, Starting)] else [])
    case OpenTarget(_) => m' == m
    case FinishLoad(_, _) => m' == m
    case _ =>
      if step.i >= |saves| || !InOrder(saves[step.i].stage, step) then m' == m
      else
        && |saves'| == |saves| && Advanced(saves[step.i], saves[step.i].pid in m.running, step, saves'[step.i])
        && m' == m.(saves := saves[step.i := saves'[step.i]])
  }

  /** A step of a call, if the call is where it can take it. */
  method StepOfSave(storage: Storage, step: Step)
    requires storage.Valid()
    requires step.MakeDirectory? || step.TakeNumber? || step.OpenTemp? || step.WriteSome?
      || step.Close? || step.Rename? || step.Remove?
    modifies storage
    ensures storage.Valid() && Keeps(storage)
    ensures Moved(old(Now(storage)), step, Now(storage))
  {
    hide storage.Disk, storage.Numbered, storage.AllWritten, storage.Installed, storage.Published;
    var i := step.i;
    if i >= |storage.saves| || !InOrder(storage.saves[i].stage, step) {
      return;
    }
    var s := storage.saves[i];
    match step
    case MakeDirectory(_, ok) => storage.MakeDirectory(i, ok);
    case TakeNumber(_) =>
      if s.pid in storage.counters {
        storage.TakeNumber(i);
      }
    case OpenTemp(_, ok) => storage.OpenTemp(i, ok);
    case WriteSome(_, n) =>
      if n <= |s.snapshot| {
        storage.WriteSome(i, n);
      }
    case Close(_, ok, n) =>
      if n <= |s.snapshot| {
        storage.Close(i, ok, n);
      }
    case Rename(_, ok) => storage.Rename(i, ok);
    case Remove(_, ok) => storage.Remove(i, ok);
  }

  method StepOfProcess(storage: Storage, step: Step)
    requires storage.Valid() && (step.StartProcess? || step.StopProcess? || step.BeginSave?)
    modifies storage
    ensures storage.Valid() && Keeps(storage)
    ensures Moved(old(Now(storage)), step, Now(storage))
  {
    hide storage.Disk, storage.Numbered, storage.AllWritten, storage.Installed, storage.Published;
    match step
    case StartProcess(pid) =>
      if pid !in storage.counters {
        storage.StartProcess(pid);
      }
    case StopProcess(pid) =>
      if pid in storage.counters {
        storage.StopProcess(pid);
      }
    case BeginSave(pid, snapshot) =>
      if pid in storage.counters {
        var _ := storage.BeginSave(pid, snapshot);
      }
  }

  /** Where a `load` is: it has the target open, or could not open it. */
  datatype Load = Reading(inode: nat) | NotOpen

  /** What a `load` may return: a complete snapshot; the empty object, while there has been no target; or an error. */
  ghost predicate Lawful(storage: Storage, r: LoadResult, present: bool)
    reads storage
  {
    r.Loaded? ==> storage.Complete(r.snapshot) || (r.snapshot == "{}" && !present)
  }

  /** A `load` goes on: it reads what it has open, or finds out whether there is a target. */
  method FinishLoad(storage: Storage, load: Load, ok: bool, ghost present: bool) returns (r: LoadResult)
    requires storage.Valid() && (load.Reading? ==> load.inode in storage.published)
    requires present ==> storage.path in storage.dir
    ensures Lawful(storage, r, present)
  {
    match load
    case Reading(inode) => r := storage.ReadOpened(inode, ok);
    case NotOpen => r := storage.CannotOpen(ok);
  }

  /** How many loads the steps begin, and how many of these they bring to an end. */
  ghost function Begun(steps: seq<Step>): nat {
    if steps == [] then 0 else Begun(steps[..|steps| - 1]) + if steps[|steps| - 1].OpenTarget? then 1 else 0
  }

  ghost function Ended(steps: seq<Step>): nat {
    if steps == [] then 0
    else
      var front, last := steps[..|steps| - 1], steps[|steps| - 1];
      Ended(front) + if last.FinishLoad? && last.k < Begun(front) then 1 else 0
  }

  /** One step of a run; `loads` are the calls of `load` begun so far. */
  method Perform(storage: Storage, step: Step, loads: seq<Load>, ghost present: bool)
    returns (loads': seq<Load>, results: seq<LoadResult>)
    requires storage.Valid() && (present ==> storage.path in storage.dir)
    requires forall j :: 0 <= j < |loads| && loads[j].Reading? ==> loads[j].inode in storage.published
    modifies storage
    ensures storage.Valid() && Keeps(storage) && Moved(old(Now(storage)), step, Now(storage))
    ensures forall j :: 0 <= j < |loads'| && loads'[j].Reading? ==> loads'[j].inode in storage.published
    ensures |loads'| == |loads| + if step.OpenTarget? then 1 else 0
    ensures |results| == if step.FinishLoad? && step.k < |loads| then 1 else 0
    ensures forall j :: 0 <= j < |results| ==> Lawful(storage, results[j], present)
  {
    hide storage.Valid;
    loads', results := loads, [];
    match step {
      case OpenTarget(ok) =>
        var inode := storage.OpenTarget(ok);
        loads' := loads + [if inode.Some? then Reading(inode.value) else NotOpen];
      case FinishLoad(k, ok) =>
        if k < |loads| {
          var r := FinishLoad(storage, loads[k], ok, present);
          results := [r];
        }
      case StartProcess(_) => StepOfProcess(storage, step);
      case StopProcess(_) => StepOfProcess(storage, step);
      case BeginSave(_, _) => StepOfProcess(storage, step);
      case _ => StepOfSave(storage, step);
    }
  }

  /**
   Any interleaving of calls, with failures and stops anywhere: every load that succeeds gets a complete snapshot, or
   the empty object if there was no target when the run began. `trace` has the calls and processes after every step,
   and each step does what it is for.
   */
  method Execute(storage: Storage, steps: seq<Step>) returns (results: seq<LoadResult>, ghost trace: seq<Moment>)
    requires storage.Valid()
    modifies storage
    ensures storage.Valid() && (storage.Target().Some? ==> storage.Complete(storage.Target().value))
    ensures forall j :: 0 <= j < |results| ==> Lawful(storage, results[j], old(storage.Target()).Some?)
    ensures |results| == Ended(steps)
    ensures |trace| == |steps| + 1 && trace[0] == old(Now(storage)) && trace[|steps|] == Now(storage)
    ensures forall k :: 0 <= k < |steps| ==> Moved(trace[k], steps[k], trace[k + 1])
  {
    hide storage.Disk, storage.Numbered, storage.AllWritten, storage.Published, Moved;
    var loads: seq<Load> := [];
    results, trace := [], [Now(storage)];
    ghost var present := storage.Target().Some?;
    for k := 0 to |steps|
      invariant storage.Valid() && (present ==> storage.path in storage.dir)
      invariant forall j :: 0 <= j < |loads| && loads[j].Reading? ==> loads[j].inode in storage.published
      invariant forall j :: 0 <= j < |results| ==> Lawful(storage, results[j], present)
      invariant |loads| == Begun(steps[..k]) && |results| == Ended(steps[..k])
      invariant |trace| == k + 1 && trace[0] == old(Now(storage)) && trace[k] == Now(storage)
      invariant forall j :: 0 <= j < k ==> Moved(trace[j], steps[j], trace[j + 1])
    {
      var more;
      assert steps[..k + 1][..k] == steps[..k];
      loads, more := Perform(storage, steps[k], loads, present);
      results := results + more;
      trace := trace + [Now(storage)];
    }
    storage.TargetIsComplete();
    assert steps[..|steps|] == steps;
  }
}
