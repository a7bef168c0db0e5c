/** tmpfs: inodes, directory entries and file contents, one lock section at a time. */
module TmpFs {
  import opened Layout
  import opened Arith

  const ROOT: nat := 1

  datatype Kind = Directory | Regular | Symlink | Special
  datatype FsError = NotFound | NotDir | NotFile | Exists | Invalid | NotSupported
  datatype Result<+T> = Ok(value: T) | Err(error: FsError)

  /** A name as the caller gave it: bytes that are UTF-8, or not. */
  datatype Name = Text(text: string) | NotUtf8

  datatype Inode = Inode(kind: Kind, size: nat, generation: nat, data: seq<nat>, children: map<string, nat>,
                         target: seq<nat>)

  /** `pending` holds the inodes whose creator has not yet tried to link them. */
  datatype Fs = Fs(inodes: map<nat, Inode>, next: nat, pending: set<nat>)

  // ---------------------------------------------------------------- lock sections on values

  function NewFs(): Fs {
    Fs(map[ROOT := Inode(Directory, 0, 1, [], map[], [])], ROOT + 1, {})
  }

  function AllocStep(fs: Fs, kind: Kind): Fs {
    Fs(fs.inodes[fs.next := Inode(kind, 0, 1, [], map[], [])], fs.next + 1, fs.pending + {fs.next})
  }

  function LinkError(fs: Fs, dir: nat, name: string): Option<FsError> {
    if dir !in fs.inodes then Some(NotFound)
    else if fs.inodes[dir].kind != Directory then Some(NotDir)
    else if name in fs.inodes[dir].children then Some(Exists)
    else None
  }

  /** A link that fails leaves the inode behind, linked nowhere. */
  function LinkStep(fs: Fs, dir: nat, name: string, ino: nat): Fs {
    if LinkError(fs, dir, name).Some? then fs.(pending := fs.pending - {ino}) else
      var d := fs.inodes[dir];
      Fs(fs.inodes[dir := d.(children := d.children[name := ino], generation := d.generation + 1)], fs.next,
         fs.pending - {ino})
  }

  function UnlinkError(fs: Fs, dir: nat, name: string): Option<FsError> {
    if dir !in fs.inodes then Some(NotFound)
    else if fs.inodes[dir].kind != Directory then Some(NotDir)
    else if name !in fs.inodes[dir].children then Some(NotFound)
    else
      var child := fs.inodes[dir].children[name];
      if child !in fs.inodes then Some(NotFound)
      else if fs.inodes[child].kind == Directory && fs.inodes[child].children != map[] then Some(NotSupported)
      else None
  }

  function UnlinkStep(fs: Fs, dir: nat, name: string): Fs {
    if UnlinkError(fs, dir, name).Some? then fs else
      var d := fs.inodes[dir];
      var rest := fs.inodes[dir := d.(children := d.children - {name})] - {d.children[name]};
      fs.(inodes := if dir in rest then rest[dir := rest[dir].(generation := rest[dir].generation + 1)] else rest)
  }

  /** The bytes of a file after a write: extended with zeros where the write lies beyond the end. */
  function Patched(data: seq<nat>, start: nat, buf: seq<nat>): (r: seq<nat>)
    ensures |r| == Max(|data|, start + |buf|)
    ensures forall i: nat :: i < |r| ==>
      r[i] == if start <= i < start + |buf| then buf[i - start] else if i < |data| then data[i] else 0
  {
    var grown := Resized(data, Max(|data|, start + |buf|));
    grown[..start] + buf + grown[start + |buf|..]
  }

  function Resized(data: seq<nat>, size: nat): (r: seq<nat>)
    ensures |r| == size && forall i: nat :: i < size ==> r[i] == if i < |data| then data[i] else 0
  {
    if size <= |data| then data[..size] else data + seq(size - |data|, _ => 0)
  }

  function FileError(fs: Fs, ino: nat): Option<FsError> {
    if ino !in fs.inodes then Some(NotFound) else if fs.inodes[ino].kind != Regular then Some(NotFile) else None
  }

  function WriteStep(fs: Fs, ino: nat, start: nat, buf: seq<nat>): Fs {
    if FileError(fs, ino).Some? then fs else
      var data := Patched(fs.inodes[ino].data, start, buf);
      fs.(inodes := fs.inodes[ino := fs.inodes[ino].(data := data, size := |data|,
                                                     generation := fs.inodes[ino].generation + 1)])
  }

  function TruncateStep(fs: Fs, ino: nat, size: nat): Fs {
    if FileError(fs, ino).Some? then fs else
      var n := fs.inodes[ino];
      fs.(inodes := fs.inodes[ino := n.(data := Resized(n.data, size), size := size, generation := n.generation + 1)])
  }

  /** The last section of `symlink`, which expects the inode it created to be there still. */
  function TargetStep(fs: Fs, ino: nat, target: seq<nat>): Fs {
    if ino !in fs.inodes then fs else
      fs.(inodes := fs.inodes[ino := fs.inodes[ino].(target := target, size := |target|)])
  }

  // ---------------------------------------------------------------- the forest

  /** Directory `d` has an entry `name` for inode `c`. */
  ghost predicate HasEntry(fs: Fs, d: nat, name: string, c: nat) {
    d in fs.inodes && name in fs.inodes[d].children && fs.inodes[d].children[name] == c
  }

  /** Entries point to live inodes with a greater number. */
  ghost predicate EntriesOk(fs: Fs) {
    forall d: nat, name, c: nat :: HasEntry(fs, d, name, c) ==>
      c in fs.inodes && d < c && fs.inodes[d].kind == Directory
  }

  /** An inode has at most one entry in all directories together. */
  ghost predicate OneParent(fs: Fs) {
    forall d: nat, name, d': nat, name', c: nat :: HasEntry(fs, d, name, c) && HasEntry(fs, d', name', c) ==>
      d == d' && name == name'
  }

  ghost predicate SizeOk(n: Inode) {
    n.size == (if n.kind == Symlink then |n.target| else |n.data|) && (n.kind == Directory ==> n.data == [])
  }

  ghost predicate InodesOk(fs: Fs) {
    && ROOT in fs.inodes && fs.inodes[ROOT].kind == Directory && ROOT < fs.next
    && forall i: nat :: i in fs.inodes ==> ROOT <= i < fs.next && SizeOk(fs.inodes[i])
  }

  /** Inodes not yet linked are live and have no entry. */
  ghost predicate PendingOk(fs: Fs) {
    forall i: nat :: i in fs.pending ==> i in fs.inodes && i != ROOT && forall d: nat, name :: !HasEntry(fs, d, name, i)
  }

  ghost predicate Forest(fs: Fs) {
    EntriesOk(fs) && OneParent(fs) && InodesOk(fs) && PendingOk(fs)
  }

  lemma NewFsIsForest()
    ensures Forest(NewFs())
  {
  }

  lemma AllocKeeps(fs: Fs, kind: Kind)
    requires Forest(fs)
    ensures Forest(AllocStep(fs, kind))
  {
    var fs' := AllocStep(fs, kind);
    forall d: nat, name, c: nat ensures HasEntry(fs', d, name, c) == HasEntry(fs, d, name, c) {}
  }

  lemma LinkKeeps(fs: Fs, dir: nat, name: string, ino: nat)
    requires Forest(fs) && ino in fs.pending && dir < ino
    ensures Forest(LinkStep(fs, dir, name, ino))
  {
    var fs' := LinkStep(fs, dir, name, ino);
    if LinkError(fs, dir, name).None? {
      forall d: nat, n, c: nat
        ensures HasEntry(fs', d, n, c) <==> HasEntry(fs, d, n, c) || (d == dir && n == name && c == ino) {}
    } else {
      forall d: nat, n, c: nat ensures HasEntry(fs', d, n, c) == HasEntry(fs, d, n, c) {}
    }
  }

  lemma UnlinkKeeps(fs: Fs, dir: nat, name: string)
    requires Forest(fs)
    ensures Forest(UnlinkStep(fs, dir, name))
  {
    if UnlinkError(fs, dir, name).None? {
      var fs', child := UnlinkStep(fs, dir, name), fs.inodes[dir].children[name];
      assert HasEntry(fs, dir, name, child);
      forall d: nat, n, c: nat ensures HasEntry(fs', d, n, c) <==> HasEntry(fs, d, n, c) && !(d == dir && n == name) {
        assert d == child ==> !HasEntry(fs, d, n, c);
      }
    }
  }

  /** Changing what a file or link holds, with its size. */
  lemma ContentKeeps(fs: Fs, ino: nat, n: Inode)
    requires Forest(fs) && ino in fs.inodes && n.kind == fs.inodes[ino].kind && n.children == fs.inodes[ino].children
             && SizeOk(n)
    ensures Forest(fs.(inodes := fs.inodes[ino := n]))
  {
    var fs' := fs.(inodes := fs.inodes[ino := n]);
    forall d: nat, name, c: nat ensures HasEntry(fs', d, name, c) == HasEntry(fs, d, name, c) {}
  }

  // ---------------------------------------------------------------- runs

  datatype Op =
    | Alloc(kind: Kind)
    | Link(dir: nat, name: string, ino: nat)
    | Unlink(dir: nat, name: string)
    | Write(ino: nat, start: nat, buf: seq<nat>)
    | Truncate(ino: nat, size: nat)
    | SetTarget(ino: nat, target: seq<nat>)

  function Next(fs: Fs, op: Op): Fs {
    match op
    case Alloc(kind) => AllocStep(fs, kind)
    case Link(dir, name, ino) => LinkStep(fs, dir, name, ino)
    case Unlink(dir, name) => UnlinkStep(fs, dir, name)
    case Write(ino, start, buf) => WriteStep(fs, ino, start, buf)
    case Truncate(ino, size) => TruncateStep(fs, ino, size)
    case SetTarget(ino, target) => TargetStep(fs, ino, target)
  }

  /** Which sections threads run: a creator links its own new inode, below a directory it knew before it allocated
    * that inode, and sets the target of its own symbolic link. */
  ghost predicate Allowed(fs: Fs, op: Op) {
    match op
    case Link(dir, name, ino) => ino in fs.pending && dir < ino
    case SetTarget(ino, target) => ino in fs.inodes ==> fs.inodes[ino].kind == Symlink
    case _ => true
  }

  /** Inode numbers are not used again, and an inode keeps its kind. */
  ghost predicate Later(fs: Fs, fs': Fs) {
    && fs.next <= fs'.next
    && forall i: nat :: i < fs.next && i in fs'.inodes ==> i in fs.inodes && fs'.inodes[i].kind == fs.inodes[i].kind
  }

  /** The inode an unlink removes. */
  ghost predicate Removes(fs: Fs, op: Op, ino: nat) {
    op.Unlink? && UnlinkError(fs, op.dir, op.name).None? && fs.inodes[op.dir].children[op.name] == ino
  }

  lemma StepIsLater(fs: Fs, op: Op)
    requires InodesOk(fs)
    ensures Later(fs, Next(fs, op))
    ensures forall i: nat :: i in fs.inodes ==> (i !in Next(fs, op).inodes <==> Removes(fs, op, i))
  {
    hide Patched, Resized, SizeOk;
  }

  lemma StepKeepsForest(fs: Fs, op: Op)
    requires Forest(fs) && Allowed(fs, op)
    ensures Forest(Next(fs, op)) && Later(fs, Next(fs, op))
    ensures forall i: nat :: i in fs.inodes ==> (i !in Next(fs, op).inodes <==> Removes(fs, op, i))
  {
    StepIsLater(fs, op);
    hide EntriesOk, OneParent, PendingOk, Later, Removes;
    match op {
      case Alloc(kind) => AllocKeeps(fs, kind);
      case Link(dir, name, ino) => LinkKeeps(fs, dir, name, ino);
      case Unlink(dir, name) => UnlinkKeeps(fs, dir, name);
      case Write(ino, start, buf) =>
        if FileError(fs, ino).None? {
          ContentKeeps(fs, ino, WriteStep(fs, ino, start, buf).inodes[ino]);
        }
      case Truncate(ino, size) =>
        if FileError(fs, ino).None? {
          ContentKeeps(fs, ino, TruncateStep(fs, ino, size).inodes[ino]);
        }
      case SetTarget(ino, target) =>
        if ino in fs.inodes {
          ContentKeeps(fs, ino, TargetStep(fs, ino, target).inodes[ino]);
        }
    }
  }

  ghost predicate IsRun(states: seq<Fs>, ops: seq<Op>) {
    |states| == |ops| + 1 && forall k: nat :: k < |ops| ==>
      Allowed(states[k], ops[k]) && states[k + 1] == Next(states[k], ops[k])
  }

  /** Every state of every interleaving is a forest. */
  lemma {:induction false} RunKeepsForest(states: seq<Fs>, ops: seq<Op>, i: nat, j: nat)
    requires IsRun(states, ops) && Forest(states[0]) && i <= j < |states|
    ensures Forest(states[j]) && Later(states[i], states[j])
    decreases j
  {
    hide Forest, Next, Allowed;
    if j > 0 {
      RunKeepsForest(states, ops, Min(i, j - 1), j - 1);
      assert states[j - 1 + 1] == Next(states[j - 1], ops[j - 1]);
      StepKeepsForest(states[j - 1], ops[j - 1]);
    }
  }

  /** An inode is gone exactly when some unlink in between removed it: this is when the last section of `symlink`
    * does not find the inode it created. */
  lemma {:induction false} GoneExactlyWhen(states: seq<Fs>, ops: seq<Op>, i: nat, j: nat, ino: nat)
    requires IsRun(states, ops) && Forest(states[0]) && i <= j < |states| && ino in states[i].inodes
    ensures ino !in states[j].inodes <==> exists k: nat :: i <= k < j && Removes(states[k], ops[k], ino)
    decreases j
  {
    RunKeepsForest(states, ops, i, i);
    assert ino < states[i].next;
    hide Forest, Next, Allowed, Removes;
    if i < j {
      var m := j - 1;
      GoneExactlyWhen(states, ops, i, m, ino);
      RunKeepsForest(states, ops, i, m);
      assert states[m + 1] == Next(states[m], ops[m]);
      StepKeepsForest(states[m], ops[m]);
      if ino !in states[m].inodes {
        var k: nat :| i <= k < m && Removes(states[k], ops[k], ino);
      } else if Removes(states[m], ops[m], ino) {
        assert i <= m < j;
      }
    }
  }

  /** A symbolic link is created, unlinked by another thread, and gone when its creator comes to set the target. */
  lemma SymlinkRaceExample() returns (states: seq<Fs>)
    ensures IsRun(states, [Alloc(Symlink), Link(ROOT, "l", 2), Unlink(ROOT, "l"), SetTarget(2, [1])])
            && states[0] == NewFs()
    ensures 2 in states[2].inodes && 2 !in states[3].inodes
  {
    var s0 := NewFs();
    var s1 := AllocStep(s0, Symlink);
    var s2 := LinkStep(s1, ROOT, "l", 2);
    var s3 := UnlinkStep(s2, ROOT, "l");
    assert s2.inodes[ROOT].children == map["l" := 2];
    assert UnlinkError(s2, ROOT, "l").None?;
    states := [s0, s1, s2, s3, TargetStep(s3, 2, [1])];
  }

  // ---------------------------------------------------------------- names

  /** The inode a path of names leads to from the root. */
  function Resolve(fs: Fs, names: seq<string>): Option<nat> {
    if names == [] then Some(ROOT) else
      var dir := Resolve(fs, names[..|names| - 1]);
      var name := names[|names| - 1];
      if dir.Some? && dir.value in fs.inodes && name in fs.inodes[dir.value].children
      then Some(fs.inodes[dir.value].children[name])
      else None
  }

  /** In a forest a path leads to a live inode, whose number grows with every step. */
  lemma {:induction false} PathsGrow(fs: Fs, names: seq<string>)
    requires Forest(fs) && Resolve(fs, names).Some?
    ensures Resolve(fs, names).value in fs.inodes && Resolve(fs, names).value >= ROOT + |names|
  {
    if names != [] {
      var before := names[..|names| - 1];
      PathsGrow(fs, before);
      assert HasEntry(fs, Resolve(fs, before).value, names[|names| - 1], Resolve(fs, names).value);
    }
  }

  /** No inode has two path names: a forest without shared or cyclic directories. */
  lemma {:induction false} OnePathEach(fs: Fs, p: seq<string>, q: seq<string>)
    requires Forest(fs) && Resolve(fs, p).Some? && Resolve(fs, p) == Resolve(fs, q)
    ensures p == q
    decreases |p|
  {
    PathsGrow(fs, p);
    PathsGrow(fs, q);
    if p != [] && q != [] {
      var p', q', c := p[..|p| - 1], q[..|q| - 1], Resolve(fs, p).value;
      assert HasEntry(fs, Resolve(fs, p').value, p[|p| - 1], c) && HasEntry(fs, Resolve(fs, q').value, q[|q| - 1], c);
      OnePathEach(fs, p', q');
      assert p == p' + [p[|p| - 1]] && q == q' + [q[|q| - 1]];
    }
  }

  // ---------------------------------------------------------------- create

  /** `create` with no other thread in between. */
  function CreateStep(fs: Fs, dir: nat, name: string, kind: Kind): Fs {
    LinkStep(AllocStep(fs, kind), dir, name, fs.next)
  }

  /** Creating in a directory handle that was never given out: the one number that breaks the forest is the next
    * inode's own, for a new directory becomes its own child. */
  lemma CreateKeepsForestExactlyWhen(fs: Fs, dir: nat, name: string, kind: Kind)
    requires Forest(fs)
    ensures Forest(CreateStep(fs, dir, name, kind)) <==> !(dir == fs.next && kind == Directory)
  {
    AllocKeeps(fs, kind);
    var fs1 := AllocStep(fs, kind);
    if dir < fs.next {
      LinkKeeps(fs1, dir, name, fs.next);
    } else if dir == fs.next && kind == Directory {
      assert HasEntry(CreateStep(fs, dir, name, kind), dir, name, dir);
    } else {
      assert LinkError(fs1, dir, name).Some?;
      var fs2 := LinkStep(fs1, dir, name, fs.next);
      forall d: nat, n, c: nat ensures HasEntry(fs2, d, n, c) == HasEntry(fs1, d, n, c) {}
    }
  }

  lemma CreateInItselfExample()
    ensures var fs := CreateStep(NewFs(), 2, "a", Directory); HasEntry(fs, 2, "a", 2)
  {
  }

  // ---------------------------------------------------------------- contents

  /** What a read of `room` bytes at `offset` returns. */
  function ReadBytes(data: seq<nat>, offset: nat, room: nat): seq<nat> {
    if offset >= |data| then [] else data[offset..Min(offset + room, |data|)]
  }

  /** A read sees what was written last, and the rest as it was, with zeros between the old end and the write. */
  lemma ReadAfterWrite(data: seq<nat>, start: nat, buf: seq<nat>, offset: nat, room: nat)
    ensures var r := ReadBytes(Patched(data, start, buf), offset, room);
            && |r| == (if offset >= Max(|data|, start + |buf|) then 0
                       else Min(room, Max(|data|, start + |buf|) - offset))
            && forall i: nat :: i < |r| ==>
              r[i] == if start <= offset + i < start + |buf| then buf[offset + i - start]
                else if offset + i < |data| then data[offset + i] else 0
  {
  }

  lemma ReadBack(data: seq<nat>, start: nat, buf: seq<nat>)
    ensures ReadBytes(Patched(data, start, buf), start, |buf|) == buf
  {
  }

  // ---------------------------------------------------------------- what the sections mean

  ghost predicate IsDir(fs: Fs, ino: nat) { ino in fs.inodes && fs.inodes[ino].kind == Directory }

  ghost predicate IsFile(fs: Fs, ino: nat) { ino in fs.inodes && fs.inodes[ino].kind == Regular }

  ghost predicate HasName(fs: Fs, dir: nat, name: string) { exists c: nat :: HasEntry(fs, dir, name, c) }

  /** What an inode holds is as it was. */
  ghost predicate SameContent(fs: Fs, fs': Fs, ino: nat) {
    && ino in fs.inodes && ino in fs'.inodes
    && fs'.inodes[ino].kind == fs.inodes[ino].kind && fs'.inodes[ino].data == fs.inodes[ino].data
    && fs'.inodes[ino].target == fs.inodes[ino].target && fs'.inodes[ino].size == fs.inodes[ino].size
  }

  /** Linking fails without the directory, with one that is none, and with a name that is taken; otherwise exactly that
    * entry is new. */
  lemma LinkMeans(fs: Fs, dir: nat, name: string, ino: nat)
    ensures var error, fs' := LinkError(fs, dir, name), LinkStep(fs, dir, name, ino);
            && (error == Some(NotFound) <==> dir !in fs.inodes)
            && (error == Some(NotDir) <==> dir in fs.inodes && !IsDir(fs, dir))
            && (error == Some(Exists) <==> IsDir(fs, dir) && HasName(fs, dir, name))
            && (error == None <==> IsDir(fs, dir) && !HasName(fs, dir, name))
            && (forall d: nat, n, c: nat :: HasEntry(fs', d, n, c) <==>
                  HasEntry(fs, d, n, c) || (error == None && d == dir && n == name && c == ino))
            && fs'.inodes.Keys == fs.inodes.Keys && fs'.next == fs.next && fs'.pending == fs.pending - {ino}
            && forall i: nat :: i in fs.inodes ==> SameContent(fs, fs', i)
  {
    if dir in fs.inodes && name in fs.inodes[dir].children {
      assert HasEntry(fs, dir, name, fs.inodes[dir].children[name]);
    }
  }

  ghost predicate HasSome(fs: Fs, dir: nat) { exists n :: HasName(fs, dir, n) }

  lemma SomeName(fs: Fs, dir: nat)
    requires dir in fs.inodes
    ensures HasSome(fs, dir) <==> fs.inodes[dir].children != map[]
  {
    if fs.inodes[dir].children != map[] {
      var n :| n in fs.inodes[dir].children;
      assert HasEntry(fs, dir, n, fs.inodes[dir].children[n]) && HasName(fs, dir, n);
    }
  }

  /** Unlinking fails without the directory, with one that is none, without the entry, and on a directory that has
    * entries; otherwise exactly that entry and its inode are gone. */
  lemma UnlinkMeans(fs: Fs, dir: nat, name: string)
    requires Forest(fs)
    ensures var error, fs' := UnlinkError(fs, dir, name), UnlinkStep(fs, dir, name);
            && (error == Some(NotDir) <==> dir in fs.inodes && !IsDir(fs, dir))
            && (error == Some(NotFound) <==> dir !in fs.inodes || (IsDir(fs, dir) && !HasName(fs, dir, name)))
            && (error == Some(NotSupported) <==>
                  exists c: nat :: HasEntry(fs, dir, name, c) && IsDir(fs, c) && HasSome(fs, c))
            && (error.Some? ==> error.value in {NotDir, NotFound, NotSupported} && fs' == fs)
            && (error == None ==>
                  && (forall d: nat, n, c: nat :: HasEntry(fs', d, n, c) <==>
                        HasEntry(fs, d, n, c) && !(d == dir && n == name))
                  && (forall i: nat :: i in fs'.inodes <==> i in fs.inodes && !HasEntry(fs, dir, name, i))
                  && (forall i: nat :: i in fs'.inodes ==> SameContent(fs, fs', i))
                  && fs'.next == fs.next && fs'.pending == fs.pending)
  {
    if dir in fs.inodes && name in fs.inodes[dir].children {
      var child := fs.inodes[dir].children[name];
      assert HasEntry(fs, dir, name, child) && HasName(fs, dir, name);
      assert child in fs.inodes;
      SomeName(fs, child);
      if UnlinkError(fs, dir, name).None? {
        var fs' := UnlinkStep(fs, dir, name);
        forall d: nat, n, c: nat ensures HasEntry(fs', d, n, c) <==> HasEntry(fs, d, n, c) && !(d == dir && n == name) {
          assert d == child ==> !HasEntry(fs, d, n, c);
        }
      }
    }
  }

  /** The operation changes the entries or the bytes of inode `i`. */
  ghost predicate Changes(fs: Fs, op: Op, i: nat) {
    match op
    case Link(dir, name, _) => i == dir && IsDir(fs, dir) && !HasName(fs, dir, name)
    case Unlink(dir, name) =>
      i == dir && exists c: nat :: HasEntry(fs, dir, name, c) && !(IsDir(fs, c) && HasSome(fs, c))
    case Write(ino, _, _) => i == ino && IsFile(fs, ino)
    case Truncate(ino, _) => i == ino && IsFile(fs, ino)
    case _ => false
  }

  /** The generation of an inode counts the operations that change it, and no others. */
  lemma GenerationCounts(fs: Fs, op: Op, i: nat)
    requires Forest(fs) && i in fs.inodes && i in Next(fs, op).inodes
    ensures Next(fs, op).inodes[i].generation == fs.inodes[i].generation + if Changes(fs, op, i) then 1 else 0
  {
    match op {
      case Link(dir, name, ino) => LinkMeans(fs, dir, name, ino);
      case Unlink(dir, name) => UnlinkMeans(fs, dir, name);
      case _ =>
    }
  }

  /** Byte `i` of a file. */
  ghost predicate ByteAt(fs: Fs, ino: nat, i: nat, b: nat) {
    IsFile(fs, ino) && i < |fs.inodes[ino].data| && fs.inodes[ino].data[i] == b
  }

  /** Nothing but the contents of inode `ino` is different. */
  ghost predicate OnlyContent(fs: Fs, fs': Fs, ino: nat) {
    && fs'.inodes.Keys == fs.inodes.Keys && fs'.next == fs.next && fs'.pending == fs.pending
    && (forall d: nat, n, c: nat :: HasEntry(fs', d, n, c) <==> HasEntry(fs, d, n, c))
    && forall i: nat :: i in fs.inodes && i != ino ==> SameContent(fs, fs', i)
  }

  /** A write to a live regular file puts its bytes there, zeros before them where the file ended, and keeps the others;
    * it changes nothing else, and fails on anything else. */
  lemma WriteMeans(fs: Fs, ino: nat, start: nat, buf: seq<nat>)
    ensures var error, fs' := FileError(fs, ino), WriteStep(fs, ino, start, buf);
            && (error == Some(NotFound) <==> ino !in fs.inodes)
            && (error == Some(NotFile) <==> ino in fs.inodes && !IsFile(fs, ino))
            && (error == None <==> IsFile(fs, ino)) && (error != None ==> fs' == fs) && OnlyContent(fs, fs', ino)
            && (error == None ==>
                  && IsFile(fs', ino) && |fs'.inodes[ino].data| == Max(|fs.inodes[ino].data|, start + |buf|)
                  && fs'.inodes[ino].size == |fs'.inodes[ino].data|
                  && (forall i: nat :: i < |buf| ==> ByteAt(fs', ino, start + i, buf[i]))
                  && (forall i: nat :: i < |fs.inodes[ino].data| && !(start <= i < start + |buf|) ==>
                        ByteAt(fs', ino, i, fs.inodes[ino].data[i]))
                  && forall i: nat :: |fs.inodes[ino].data| <= i < start ==> ByteAt(fs', ino, i, 0))
  {
    if FileError(fs, ino).None? {
      var fs', data, r := WriteStep(fs, ino, start, buf), fs.inodes[ino].data, Patched(fs.inodes[ino].data, start, buf);
      assert fs'.inodes[ino].data == r;
      hide Patched;
    }
  }

  /** A truncation cuts the file or fills it up with zeros. */
  lemma TruncateMeans(fs: Fs, ino: nat, size: nat)
    ensures var error, fs' := FileError(fs, ino), TruncateStep(fs, ino, size);
            && (error != None ==> fs' == fs) && OnlyContent(fs, fs', ino)
            && (error == None ==>
                  && IsFile(fs', ino) && |fs'.inodes[ino].data| == size == fs'.inodes[ino].size
                  && forall i: nat :: i < size ==>
                       ByteAt(fs', ino, i, if i < |fs.inodes[ino].data| then fs.inodes[ino].data[i] else 0))
  {
  }

  /** The operation overwrites byte `i` of the file, or cuts it off. */
  ghost predicate Overwrites(op: Op, ino: nat, i: nat) {
    || (op.Write? && op.ino == ino && op.start <= i < op.start + |op.buf|)
    || (op.Truncate? && op.ino == ino && op.size <= i)
  }

  lemma ByteStays(fs: Fs, op: Op, ino: nat, i: nat, b: nat)
    requires Forest(fs) && Allowed(fs, op) && ByteAt(fs, ino, i, b)
    requires !Overwrites(op, ino, i) && !Removes(fs, op, ino)
    ensures ByteAt(Next(fs, op), ino, i, b)
  {
    assert ino < fs.next;
    match op {
      case Alloc(_) =>
      case Link(dir, name, child) => LinkMeans(fs, dir, name, child);
      case Unlink(dir, name) =>
        UnlinkMeans(fs, dir, name);
        hide Forest;
        assert SameContent(fs, UnlinkStep(fs, dir, name), ino) || UnlinkStep(fs, dir, name) == fs;
      case Write(file, start, buf) =>
        WriteMeans(fs, file, start, buf);
        hide Forest;
        assert file != ino ==> SameContent(fs, WriteStep(fs, file, start, buf), ino);
      case Truncate(file, size) =>
        TruncateMeans(fs, file, size);
        hide Forest;
        assert file != ino ==> SameContent(fs, TruncateStep(fs, file, size), ino);
      case SetTarget(_, _) =>
    }
  }

  /** In any interleaving a byte of a file is the one written last, as long as no truncation cuts it off and the file is
    * not removed. */
  lemma {:induction false} LastWriteIsRead(states: seq<Fs>, ops: seq<Op>, k: nat, j: nat, i: nat)
    requires IsRun(states, ops) && Forest(states[0]) && k < j <= |ops|
    requires ops[k].Write? && IsFile(states[k], ops[k].ino) && ops[k].start <= i < ops[k].start + |ops[k].buf|
    requires forall m: nat :: k < m < j ==>
               !Overwrites(ops[m], ops[k].ino, i) && !Removes(states[m], ops[m], ops[k].ino)
    ensures ByteAt(states[j], ops[k].ino, i, ops[k].buf[i - ops[k].start])
    decreases j
  {
    hide Forest, LinkStep, AllocStep, UnlinkStep, WriteStep, TruncateStep, TargetStep, Allowed;
    var b := ops[k].buf[i - ops[k].start];
    RunKeepsForest(states, ops, j - 1, j - 1);
    assert states[j - 1 + 1] == Next(states[j - 1], ops[j - 1]) && Allowed(states[j - 1], ops[j - 1]);
    if j == k + 1 {
      WriteMeans(states[k], ops[k].ino, ops[k].start, ops[k].buf);
      assert ByteAt(states[j], ops[k].ino, ops[k].start + (i - ops[k].start), b);
    } else {
      LastWriteIsRead(states, ops, k, j - 1, i);
      hide Next, Overwrites, Removes, ByteAt;
      ByteStays(states[j - 1], ops[j - 1], ops[k].ino, i, b);
    }
  }

  lemma EntryStays(fs: Fs, op: Op, d: nat, name: string, c: nat)
    requires Forest(fs) && Allowed(fs, op) && HasEntry(fs, d, name, c)
    requires !(op.Unlink? && op.dir == d && op.name == name)
    ensures HasEntry(Next(fs, op), d, name, c)
  {
    assert d < fs.next;
    match op {
      case Alloc(_) =>
      case Link(dir, n, child) => LinkMeans(fs, dir, n, child);
      case Unlink(dir, n) => UnlinkMeans(fs, dir, n);
      case Write(file, start, buf) => WriteMeans(fs, file, start, buf);
      case Truncate(file, size) => TruncateMeans(fs, file, size);
      case SetTarget(_, _) =>
    }
  }

  /** A name that was linked stays until that name is unlinked: its directory cannot be removed before. */
  lemma {:induction false} NameStays(states: seq<Fs>, ops: seq<Op>, k: nat, j: nat)
    requires IsRun(states, ops) && Forest(states[0]) && k < j <= |ops|
    requires ops[k].Link? && IsDir(states[k], ops[k].dir) && !HasName(states[k], ops[k].dir, ops[k].name)
    requires forall m: nat :: k < m < j && ops[m].Unlink? ==> !(ops[m].dir == ops[k].dir && ops[m].name == ops[k].name)
    ensures HasEntry(states[j], ops[k].dir, ops[k].name, ops[k].ino) && ops[k].ino in states[j].inodes
    decreases j
  {
    hide Forest, LinkStep, AllocStep, UnlinkStep, WriteStep, TruncateStep, TargetStep, Allowed, HasEntry;
    RunKeepsForest(states, ops, j - 1, j - 1);
    RunKeepsForest(states, ops, j, j);
    assert states[j - 1 + 1] == Next(states[j - 1], ops[j - 1]) && Allowed(states[j - 1], ops[j - 1]);
    if j == k + 1 {
      LinkMeans(states[k], ops[k].dir, ops[k].name, ops[k].ino);
    } else {
      NameStays(states, ops, k, j - 1);
      hide Next;
      EntryStays(states[j - 1], ops[j - 1], ops[k].dir, ops[k].name, ops[k].ino);
    }
    EntryLives(states[j], ops[k].dir, ops[k].name, ops[k].ino);
  }

  lemma EntryLives(fs: Fs, d: nat, name: string, c: nat)
    requires Forest(fs) && HasEntry(fs, d, name, c)
    ensures c in fs.inodes
  {
  }

  // ---------------------------------------------------------------- the file system

  datatype Handle = Handle(mount: nat, ino: nat)

  /** Errors found before anything is changed. */
  function NameError(mount: nat, dir: Handle, name: Name, emptyAllowed: bool): (e: Option<FsError>)
    ensures e == None <==> dir.mount == mount && name.Text? && (emptyAllowed || name.text != "")
    ensures e.Some? ==> e.value == if dir.mount == mount then Invalid else NotFound
  {
    if dir.mount != mount then Some(NotFound)
    else if name.NotUtf8? || (name.text == "" && !emptyAllowed) then Some(Invalid)
    else None
  }

  function AsResult<T>(error: Option<FsError>, value: T): (r: Result<T>)
    ensures r.Ok? ==> error == None && r.value == value
    ensures r.Err? ==> error == Some(r.error)
  {
    if error.Some? then Err(error.value) else Ok(value)
  }

  lemma BytesWritten(fs: Fs, ino: nat, start: nat, buf: seq<nat>)
    ensures FileError(fs, ino) == None ==>
              forall i: nat :: i < |buf| ==> ByteAt(WriteStep(fs, ino, start, buf), ino, start + i, buf[i])
  {
    WriteMeans(fs, ino, start, buf);
  }

  lemma PatchedIs(data: seq<nat>, start: nat, buf: seq<nat>)
    ensures var end := start + |buf|;
            var grown := if end > |data| then Resized(data, end) else data;
            |grown| >= end && grown[..start] + buf + grown[end..] == Patched(data, start, buf)
  {
  }

  /** The new inode is empty, of its kind and known by its number. */
  lemma CreatedIs(fs: Fs, dir: nat, name: string, kind: Kind)
    ensures var error, fs' := LinkError(AllocStep(fs, kind), dir, name), CreateStep(fs, dir, name, kind);
            && fs.next in fs'.inodes
            && (error == None && dir != fs.next ==> fs'.inodes[fs.next] == Inode(kind, 0, 1, [], map[], []))
            && (error == Some(Exists) ==> HasName(fs, dir, name))
  {
    if LinkError(AllocStep(fs, kind), dir, name) == Some(Exists) {
      assert dir != fs.next;
      assert HasEntry(fs, dir, name, fs.inodes[dir].children[name]);
    }
  }

  lemma UnlinkedIs(fs: Fs, dir: nat, name: string)
    ensures UnlinkError(fs, dir, name) == None ==> !HasName(UnlinkStep(fs, dir, name), dir, name)
  {
  }

  class FileSystem {
    var inodes: map<nat, Inode>
    var next: nat
    const mount: nat
    ghost var pending: set<nat>

    ghost function View(): Fs
      reads this
    {
      Fs(inodes, next, pending)
    }

    constructor (mount: nat)
      ensures View() == NewFs() && Forest(View()) && this.mount == mount
    {
      inodes := map[ROOT := Inode(Directory, 0, 1, [], map[], [])];
      next := ROOT + 1;
      this.mount := mount;
      pending := {};
      NewFsIsForest();
    }

    method AllocInode(kind: Kind) returns (ino: nat)
      modifies this
      ensures View() == AllocStep(old(View()), kind) && ino == old(next)
    {
      ino := next;
      next := next + 1;
      inodes := inodes[ino := Inode(kind, 0, 1, [], map[], [])];
      pending := pending + {ino};
    }

    method LinkChild(dir: nat, name: string, ino: nat) returns (r: Result<()>)
      modifies this
      ensures View() == LinkStep(old(View()), dir, name, ino) && r == AsResult(LinkError(old(View()), dir, name), ())
    {
      pending := pending - {ino};
      if dir !in inodes {
        return Err(NotFound);
      }
      var d := inodes[dir];
      if d.kind != Directory {
        return Err(NotDir);
      }
      if name in d.children {
        return Err(Exists);
      }
      inodes := inodes[dir := d.(children := d.children[name := ino], generation := d.generation + 1)];
      r := Ok(());
    }

    method Create(dir: Handle, name: Name, kind: Kind) returns (r: Result<Handle>)
      modifies this
      ensures var e := NameError(mount, dir, name, false);
              if e.Some? then r == Err(e.value) && View() == old(View())
              else View() == CreateStep(old(View()), dir.ino, name.text, kind)
                   && r == AsResult(LinkError(AllocStep(old(View()), kind), dir.ino, name.text),
                                    Handle(mount, old(next)))
      ensures old(Forest(View())) && dir.ino < old(next) ==> Forest(View())
      ensures r.Ok? ==> r.value == Handle(mount, old(next)) && name.Text? && name.text != ""
                        && HasEntry(View(), dir.ino, name.text, old(next)) && old(next) in inodes
                        && (dir.ino != old(next) ==> inodes[old(next)] == Inode(kind, 0, 1, [], map[], []))
      ensures r == Err(Exists) ==> name.Text? && old(HasName(View(), dir.ino, name.text))
    {
      if name.Text? {
        LinkMeans(AllocStep(View(), kind), dir.ino, name.text, next);
        CreatedIs(View(), dir.ino, name.text, kind);
      }
      hide Forest, AllocStep, LinkStep, LinkError, HasEntry;
      if dir.mount != mount {
        return Err(NotFound);
      }
      if name.NotUtf8? || name.text == "" {
        return Err(Invalid);
      }
      ghost var fs := View();
      var ino := AllocInode(kind);
      var linked := LinkChild(dir.ino, name.text, ino);
      if Forest(fs) && dir.ino < fs.next {
        CreateKeepsForestExactlyWhen(fs, dir.ino, name.text, kind);
      }
      r := if linked.Ok? then Ok(Handle(mount, ino)) else Err(linked.error);
    }

    method Remove(dir: Handle, name: Name) returns (r: Result<()>)
      modifies this
      ensures var e := NameError(mount, dir, name, true);
              if e.Some? then r == Err(e.value) && View() == old(View())
              else View() == UnlinkStep(old(View()), dir.ino, name.text)
                   && r == AsResult(UnlinkError(old(View()), dir.ino, name.text), ())
      ensures old(Forest(View())) ==> Forest(View())
      ensures r.Ok? <==> dir.mount == mount && name.Text? && UnlinkError(old(View()), dir.ino, name.text) == None
      ensures r.Ok? ==> !HasName(View(), dir.ino, name.text)
    {
      if name.Text? {
        UnlinkedIs(View(), dir.ino, name.text);
      }
      hide Forest, HasName;
      if dir.mount != mount {
        return Err(NotFound);
      }
      if name.NotUtf8? {
        return Err(Invalid);
      }
      if Forest(View()) {
        UnlinkKeeps(View(), dir.ino, name.text);
      }
      if dir.ino !in inodes {
        return Err(NotFound);
      }
      if inodes[dir.ino].kind != Directory {
        return Err(NotDir);
      }
      if name.text !in inodes[dir.ino].children {
        return Err(NotFound);
      }
      var child := inodes[dir.ino].children[name.text];
      if child !in inodes {
        return Err(NotFound);
      }
      if inodes[child].kind == Directory && inodes[child].children != map[] {
        return Err(NotSupported);
      }
      inodes := inodes[dir.ino := inodes[dir.ino].(children := inodes[dir.ino].children - {name.text})];
      inodes := inodes - {child};
      if dir.ino in inodes {
        inodes := inodes[dir.ino := inodes[dir.ino].(generation := inodes[dir.ino].generation + 1)];
      }
      r := Ok(());
    }

    method ReadAt(h: Handle, offset: nat, buf: array<nat>) returns (r: Result<nat>)
      modifies buf
      ensures h.mount == mount && h.ino in inodes
              && (inodes[h.ino].kind == Regular || inodes[h.ino].kind == Symlink) ==>
                var data := if inodes[h.ino].kind == Symlink then inodes[h.ino].target else inodes[h.ino].data;
                var bytes := ReadBytes(data, offset, buf.Length);
                r == Ok(|bytes|) && |bytes| <= buf.Length && buf[..] == bytes + old(buf[..])[|bytes|..]
      ensures r.Err? ==> buf[..] == old(buf[..])
      ensures r.Err? ==> r.error == if h.mount != mount || h.ino !in inodes then NotFound else NotFile
      ensures r.Err? <==> h.mount != mount || h.ino !in inodes
                          || (inodes[h.ino].kind != Regular && inodes[h.ino].kind != Symlink)
    {
      if h.mount != mount || h.ino !in inodes {
        return Err(NotFound);
      }
      var node := inodes[h.ino];
      if node.kind != Regular && node.kind != Symlink {
        return Err(NotFile);
      }
      var data := if node.kind == Symlink then node.target else node.data;
      if offset >= |data| {
        return Ok(0);
      }
      var end := Min(offset + buf.Length, |data|);
      forall i | 0 <= i < end - offset {
        buf[i] := data[offset + i];
      }
      r := Ok(end - offset);
    }

    method WriteAt(h: Handle, offset: nat, buf: seq<nat>) returns (r: Result<nat>)
      modifies this
      ensures if h.mount != mount then r == Err(NotFound) && View() == old(View())
              else View() == WriteStep(old(View()), h.ino, offset, buf)
                   && r == AsResult(FileError(old(View()), h.ino), |buf|)
      ensures old(Forest(View())) ==> Forest(View())
      ensures r.Ok? <==> h.mount == mount && old(IsFile(View(), h.ino))
      ensures r.Ok? ==> r.value == |buf| && forall i: nat :: i < |buf| ==> ByteAt(View(), h.ino, offset + i, buf[i])
    {
      hide ByteAt, Forest, Patched, Resized;
      BytesWritten(View(), h.ino, offset, buf);
      if h.mount != mount || h.ino !in inodes {
        return Err(NotFound);
      }
      var node := inodes[h.ino];
      if node.kind != Regular {
        return Err(NotFile);
      }
      ghost var fs := View();
      var end := offset + |buf|;
      PatchedIs(node.data, offset, buf);
      var data := if end > |node.data| then Resized(node.data, end) else node.data;
      data := data[..offset] + buf + data[end..];
      node := node.(data := data, size := |data|, generation := node.generation + 1);
      if Forest(fs) {
        ContentKeeps(fs, h.ino, node);
      }
      inodes := inodes[h.ino := node];
      r := Ok(|buf|);
    }

    method SetSize(h: Handle, size: nat) returns (r: Result<()>)
      modifies this
      ensures if h.mount != mount then r == Err(NotFound) && View() == old(View())
              else View() == TruncateStep(old(View()), h.ino, size) && r == AsResult(FileError(old(View()), h.ino), ())
      ensures old(Forest(View())) ==> Forest(View())
    {
      if h.mount != mount || h.ino !in inodes {
        return Err(NotFound);
      }
      var node := inodes[h.ino];
      if node.kind != Regular {
        return Err(NotFile);
      }
      ghost var fs := View();
      node := node.(data := Resized(node.data, size), size := size, generation := node.generation + 1);
      if Forest(fs) {
        ContentKeeps(fs, h.ino, node);
      }
      hide Forest, Resized;
      inodes := inodes[h.ino := node];
      r := Ok(());
    }

    /** `symlink` with no other thread in between: the new inode is found, and reads as the target. */
    method MakeSymlink(dir: Handle, name: Name, target: seq<nat>) returns (r: Result<Handle>)
      modifies this
      ensures var e := NameError(mount, dir, name, false);
              if e.Some? then r == Err(e.value) && View() == old(View())
              else var fs1 := CreateStep(old(View()), dir.ino, name.text, Symlink);
                   var error := LinkError(AllocStep(old(View()), Symlink), dir.ino, name.text);
                   View() == (if error.Some? then fs1 else TargetStep(fs1, old(next), target))
                   && r == AsResult(error, Handle(mount, old(next)))
      ensures r.Ok? ==> old(next) in inodes && inodes[old(next)].kind == Symlink && inodes[old(next)].target == target
      ensures old(Forest(View())) && dir.ino < old(next) ==> Forest(View())
    {
      ghost var fs := View();
      r := Create(dir, name, Symlink);
      if r.Ok? {
        var ino := r.value.ino;
        var node := inodes[ino].(target := target, size := |target|);
        if Forest(View()) {
          ContentKeeps(View(), ino, node);
        }
        hide Forest;
        inodes := inodes[ino := node];
      }
    }
  }
}
