/** Walking a directory tree with an explicit stack, against the recursive walk. Any allocation may
    fail. */
module DirWalk {
  import opened Ints
  import opened Bits

  const MAX_PATH_LEN: nat := 1024

  /** A directory entry. `Other` is a link, a special file or an entry that cannot be examined; a
      directory that cannot be opened is not readable. */
  datatype Node =
    | File(name: string)
    | Dir(name: string, readable: bool, children: seq<Node>)
    | Other(name: string)

  const INCLUDE_EXTS: seq<string> := [".c", ".h", ".cpp", ".hpp", ".java", ".py", ".rs", ".go", ".js", ".ts"]

  /** The comparison of the path's end with an extension. */
  predicate HasSuffix(path: string, ext: string) {
    |path| >= |ext| && path[|path| - |ext|..] == ext
  }

  /** The path is something followed by `ext`. */
  ghost predicate EndsIn(path: string, ext: string) {
    exists stem: string :: path == stem + ext
  }

  /** The path ends in one of the listed extensions. */
  ghost predicate Listed(path: string, exts: seq<string>) {
    exists k :: 0 <= k < |exts| && EndsIn(path, exts[k])
  }

  lemma SuffixIsEnd(path: string, ext: string)
    ensures HasSuffix(path, ext) <==> EndsIn(path, ext)
  {
    if HasSuffix(path, ext) {
      assert path == path[..|path| - |ext|] + ext;
    }
  }

  method ShouldInclude(path: string, exts: seq<string>) returns (include_: bool)
    ensures include_ <==> Listed(path, exts)
  {
    for i := 0 to |exts|
      invariant forall k :: 0 <= k < i ==> !EndsIn(path, exts[k])
    {
      SuffixIsEnd(path, exts[i]);
      if HasSuffix(path, exts[i]) {
        return true;
      }
    }
    return false;
  }

  // ---- allocation ----

  /** The allocator: `ok` says of each request in turn whether it is granted. */
  class Heap {
    const ok: nat -> bool
    var next: nat

    constructor (ok: nat -> bool)
      ensures this.ok == ok && next == 0
    {
      this.ok, next := ok, 0;
    }

    method Alloc() returns (granted: bool)
      modifies this
      ensures next == old(next) + 1 && granted == ok(old(next))
    {
      granted, next := ok(next), next + 1;
    }
  }

  /** Requests lo to hi - 1 were all granted. */
  ghost predicate NoFailure(ok: nat -> bool, lo: nat, hi: nat) {
    forall i :: lo <= i < hi ==> ok(i)
  }

  lemma FailureSplit(ok: nat -> bool, lo: nat, mid: nat, hi: nat)
    requires lo <= mid <= hi
    ensures NoFailure(ok, lo, hi) <==> NoFailure(ok, lo, mid) && NoFailure(ok, mid, hi)
  {
  }

  /** The capacity for n entries of an array that starts at c and doubles. */
  ghost function CapFrom(c: nat, n: nat): (r: nat)
    requires c > 0
    ensures r >= c && r >= n
    decreases n - c
  {
    if n <= c then c else CapFrom(2 * c, n)
  }

  /** One more entry doubles the capacity exactly when it is used up. */
  lemma {:induction false} CapNext(c: nat, n: nat)
    requires c > 0
    ensures CapFrom(c, n + 1) == if n < CapFrom(c, n) then CapFrom(c, n) else 2 * n
    ensures n >= CapFrom(c, n) ==> n == CapFrom(c, n)
    decreases n - c
  {
    if n > c { CapNext(2 * c, n); }
  }

  /** The capacity stays an int exactly up to the last doubling that does. */
  lemma {:induction false} CapFits(c: nat, k: nat, limit: nat, n: nat)
    requires c > 0 && c * Pow2(k) == limit <= INT_MAX < 2 * limit
    ensures CapFrom(c, n) <= INT_MAX <==> n <= limit
    decreases k
  {
    if k > 0 {
      assert 2 * c * Pow2(k - 1) == c * Pow2(k);
      CapFits(2 * c, k - 1, limit, n);
    }
  }

  /** The most paths, and the most waiting directories, whose array capacity is an int. */
  const MAX_LISTED: nat := 1_310_720_000
  const MAX_WAITING: nat := 0x4000_0000

  ghost function ListCap(n: nat): nat {
    if n == 0 then 0 else CapFrom(10000, n)
  }

  lemma ListCapNext(n: nat)
    ensures ListCap(n + 1) == if n < ListCap(n) then ListCap(n) else if n == 0 then 10000 else 2 * n
    ensures n <= ListCap(n) <= ListCap(n + 1)
  {
    if n > 0 { CapNext(10000, n); }
  }

  lemma ListCapFits(n: nat)
    ensures ListCap(n) <= INT_MAX <==> n <= MAX_LISTED
  {
    assert Pow2(8) == 0x100 && Pow2(17) == 0x2_0000;
    CapFits(10000, 17, MAX_LISTED, n);
  }

  lemma StackCapFits(n: nat)
    ensures CapFrom(256, n) <= INT_MAX <==> n <= MAX_WAITING
  {
    assert Pow2(11) == 0x800 && Pow2(22) == 0x40_0000;
    CapFits(256, 22, MAX_WAITING, n);
  }

  /** The list of found files: an array that doubles when it is full. */
  class FileList {
    var paths: array<string>
    var count: nat

    /** The array has room for the paths, or for one more after a path could not be copied. */
    ghost predicate Valid()
      reads this, paths
    {
      count <= paths.Length && (Tight() || paths.Length == ListCap(count + 1))
    }

    ghost predicate Tight()
      reads this
    {
      paths.Length == ListCap(count)
    }

    ghost function Contents(): seq<string>
      requires Valid()
      reads this, paths
    {
      paths[..count]
    }

    constructor ()
      ensures Valid() && Tight() && Contents() == [] && fresh(paths)
    {
      paths, count := new string[0], 0;
    }

    /** Appends a copy of `path`, or drops it when an allocation fails. */
    method Add(path: string, heap: Heap) returns (ghost added: bool)
      requires Valid()
      modifies this, paths, heap
      ensures Valid() && (paths == old(paths) || fresh(paths)) && old(heap.next) <= heap.next
      ensures added <==> NoFailure(heap.ok, old(heap.next), heap.next)
      ensures Contents() == if added then old(Contents()) + [path] else old(Contents())
      ensures var full := old(count) == old(paths.Length);
              heap.next == old(heap.next) + (if full && heap.ok(old(heap.next)) then 2 else 1)
      ensures added ==> Tight()
      ensures old(count) < MAX_LISTED ==> paths.Length <= INT_MAX
    {
      hide CapFrom, ListCap;
      ListCapNext(count);
      ListCapFits(count + 1);
      added := false;
      var room := MakeRoom(heap);
      if !room {
        return;
      }
      var copied := heap.Alloc();
      if !copied {
        return;
      }
      paths[count] := path;
      count, added := count + 1, true;
    }

    /** Doubles the array when it is full. */
    method MakeRoom(heap: Heap) returns (room: bool)
      requires Valid()
      modifies this`paths, heap
      ensures Valid() && (paths == old(paths) || fresh(paths)) && old(heap.next) <= heap.next
      ensures room <==> count < paths.Length
      ensures heap.next == old(heap.next) + (if count == old(paths.Length) then 1 else 0)
      ensures room <==> NoFailure(heap.ok, old(heap.next), heap.next)
      ensures room ==> paths.Length == ListCap(count + 1)
      ensures Contents() == old(Contents()) && paths.Length <= Max(old(paths.Length), ListCap(count + 1))
    {
      hide CapFrom, ListCap;
      ListCapNext(count);
      room := true;
      if count >= paths.Length {
        var newCap := if paths.Length != 0 then paths.Length * 2 else 10000;
        room := heap.Alloc();
        if room {
          Grow(newCap);
        }
      }
    }

    /** Moves the paths to a larger array. */
    method Grow(newCap: nat)
      requires count <= paths.Length <= newCap
      modifies this`paths
      ensures fresh(paths) && paths.Length == newCap && paths[..count] == old(paths[..count])
    {
      var grown := new string[newCap](_ => "");
      forall i | 0 <= i < count {
        grown[i] := paths[i];
      }
      paths := grown;
    }
  }

  // ---- the recursive walk ----

  predicate Skipped(path: string, name: string) {
    (|name| > 0 && name[0] == '.') || |path| + 1 + |name| >= MAX_PATH_LEN
  }

  function FullPath(path: string, name: string): string {
    path + "/" + name
  }

  /** What a recursive traversal of a directory finds, in its order. */
  ghost function Found(path: string, children: seq<Node>, exts: seq<string>): seq<string>
    decreases children, 0
  {
    if children == [] then []
    else FoundIn(path, children[0], exts) + Found(path, children[1..], exts)
  }

  ghost function FoundIn(path: string, node: Node, exts: seq<string>): seq<string>
    decreases node, 1
  {
    if Skipped(path, node.name) then []
    else
      var full := FullPath(path, node.name);
      match node
      case File(_) => if Listed(full, exts) then [full] else []
      case Dir(_, readable, children) => if readable then Found(full, children, exts) else []
      case Other(_) => []
  }

  // ---- what the recursive walk finds, by names ----

  /** The path of the entry reached from `root` by these names. */
  ghost function Joined(root: string, names: seq<string>): (r: string)
    ensures |r| >= |root|
    decreases |names|
  {
    if names == [] then root else Joined(root + "/" + names[0], names[1..])
  }

  /** The names lead to a regular file, through readable directories. */
  ghost predicate FileAt(children: seq<Node>, names: seq<string>)
    decreases |names|, 1
  {
    names != [] && exists k :: 0 <= k < |children| && Leads(children[k], names)
  }

  ghost predicate Leads(node: Node, names: seq<string>)
    requires names != []
    decreases |names|, 0
  {
    && node.name == names[0]
    && if |names| == 1 then node.File? else node.Dir? && node.readable && FileAt(node.children, names[1..])
  }

  /** `p` is the path of these names, none of them hidden. */
  ghost predicate Visible(path: string, names: seq<string>, p: string) {
    p == Joined(path, names) && forall k :: 0 <= k < |names| ==> !("." <= names[k])
  }

  /** It also fits the path buffer and ends in a listed extension. */
  ghost predicate Fine(path: string, names: seq<string>, exts: seq<string>, p: string) {
    Visible(path, names, p) && |p| < 1024 && Listed(p, exts)
  }

  lemma {:induction false} FoundNames(path: string, children: seq<Node>, exts: seq<string>, p: string)
    returns (names: seq<string>)
    requires p in Found(path, children, exts)
    ensures FileAt(children, names) && Fine(path, names, exts, p)
    decreases children, 0
  {
    if p in FoundIn(path, children[0], exts) {
      names := FoundInNames(path, children[0], exts, p);
    } else {
      names := FoundNames(path, children[1..], exts, p);
      var k :| 0 <= k < |children[1..]| && Leads(children[1..][k], names);
      assert Leads(children[k + 1], names);
    }
  }

  lemma {:induction false} FoundInNames(path: string, node: Node, exts: seq<string>, p: string)
    returns (names: seq<string>)
    requires p in FoundIn(path, node, exts)
    ensures names != [] && Leads(node, names) && Fine(path, names, exts, p)
    decreases node, 1
  {
    if node.File? {
      names := [node.name];
    } else {
      var rest := FoundNames(path + "/" + node.name, node.children, exts, p);
      names := [node.name] + rest;
      assert names[1..] == rest;
    }
  }

  lemma {:induction false} NamesFound(path: string, children: seq<Node>, exts: seq<string>, p: string,
                                      names: seq<string>)
    requires FileAt(children, names) && Fine(path, names, exts, p)
    ensures p in Found(path, children, exts)
    decreases |names|, 1
  {
    var k :| 0 <= k < |children| && Leads(children[k], names);
    NamesFoundIn(path, children[k], exts, p, names);
    EntryFound(path, children, exts, k, p);
  }

  lemma {:induction false} NamesFoundIn(path: string, node: Node, exts: seq<string>, p: string, names: seq<string>)
    requires names != [] && Leads(node, names) && Fine(path, names, exts, p)
    ensures p in FoundIn(path, node, exts)
    decreases |names|, 0
  {
    var full := path + "/" + node.name;
    assert Joined(path, names) == Joined(full, names[1..]);
    if |names| > 1 {
      NamesFound(full, node.children, exts, p, names[1..]);
    }
  }

  lemma {:induction false} EntryFound(path: string, children: seq<Node>, exts: seq<string>, k: nat, p: string)
    requires k < |children| && p in FoundIn(path, children[k], exts)
    ensures p in Found(path, children, exts)
    decreases k
  {
    if k > 0 { EntryFound(path, children[1..], exts, k - 1, p); }
  }

  /** Exactly the regular files reached by names that are not hidden, through readable directories,
      are found: those whose path ends in a listed extension and is shorter than 1024 characters. */
  lemma FoundExactly(path: string, children: seq<Node>, exts: seq<string>, p: string)
    ensures p in Found(path, children, exts) <==>
              exists names :: FileAt(children, names) && Fine(path, names, exts, p)
  {
    if p in Found(path, children, exts) {
      var names := FoundNames(path, children, exts, p);
    } else if names :| FileAt(children, names) && Fine(path, names, exts, p) {
      NamesFound(path, children, exts, p, names);
    }
  }

  // ---- the walk with a stack ----

  /** A directory waiting to be read. */
  datatype Frame = Frame(path: string, readable: bool, children: seq<Node>)

  ghost function FoundUnder(f: Frame, exts: seq<string>): seq<string> {
    if f.readable then Found(f.path, f.children, exts) else []
  }

  ghost function FoundOn(stack: seq<Frame>, exts: seq<string>): multiset<string> {
    if stack == [] then multiset{}
    else FoundOn(stack[..|stack| - 1], exts) + multiset(FoundUnder(stack[|stack| - 1], exts))
  }

  ghost function Size(children: seq<Node>): (r: nat)
    decreases children, 0
  {
    if children == [] then 0 else SizeOf(children[0]) + Size(children[1..])
  }

  ghost function SizeOf(node: Node): (r: nat)
    ensures r > 0
    decreases node, 1
  {
    match node
    case Dir(_, _, children) => 1 + Size(children)
    case _ => 1
  }

  ghost function StackSize(stack: seq<Frame>): (r: nat)
    ensures r >= |stack|
  {
    if stack == [] then 0 else StackSize(stack[..|stack| - 1]) + 1 + Size(stack[|stack| - 1].children)
  }

  lemma Pushed(stack: seq<Frame>, f: Frame, exts: seq<string>)
    ensures FoundOn(stack + [f], exts) == FoundOn(stack, exts) + multiset(FoundUnder(f, exts))
    ensures StackSize(stack + [f]) == StackSize(stack) + 1 + Size(f.children)
  {
    assert (stack + [f])[..|stack|] == stack;
  }

  /** The array of waiting directories. It never shrinks; `peak` is the largest number of places it
      had to have so far. */
  class DirStack {
    var dirs: array<Frame>
    var len: nat
    ghost var peak: nat

    ghost predicate Valid()
      reads this, dirs
    {
      len <= peak && dirs.Length == CapFrom(256, peak)
    }

    ghost function Contents(): (r: seq<Frame>)
      requires Valid()
      reads this, dirs
      ensures |r| == len
    {
      dirs[..len]
    }

    constructor (root: Frame)
      ensures Valid() && Contents() == [root] && peak == 1 && fresh(dirs)
    {
      dirs, len, peak := new Frame[256](_ => root), 1, 1;
    }

    /** Puts a directory on top, or skips its subtree when an allocation fails. */
    method Push(dir: Frame, heap: Heap) returns (ghost added: bool)
      requires Valid()
      modifies this, dirs, heap
      ensures Valid() && (dirs == old(dirs) || fresh(dirs)) && old(heap.next) <= heap.next
      ensures added <==> NoFailure(heap.ok, old(heap.next), heap.next)
      ensures Contents() == if added then old(Contents()) + [dir] else old(Contents())
      ensures var full := old(len) == old(dirs.Length);
              heap.next == old(heap.next) + (if full && heap.ok(old(heap.next)) then 2 else 1)
      ensures old(peak) <= peak <= Max(old(peak), old(len) + 1)
      ensures peak <= MAX_WAITING ==> dirs.Length <= INT_MAX
    {
      hide CapFrom;
      added := false;
      var room := MakeRoom(heap);
      StackCapFits(peak);
      if !room {
        return;
      }
      var copied := heap.Alloc();
      if !copied {
        return;
      }
      dirs[len] := dir;
      len, added := len + 1, true;
    }

    /** Doubles the array when it is full. */
    method MakeRoom(heap: Heap) returns (room: bool)
      requires Valid()
      modifies this`dirs, this`peak, heap
      ensures Valid() && (dirs == old(dirs) || fresh(dirs)) && old(heap.next) <= heap.next
      ensures room <==> len < dirs.Length
      ensures heap.next == old(heap.next) + (if len == old(dirs.Length) then 1 else 0)
      ensures room <==> NoFailure(heap.ok, old(heap.next), heap.next)
      ensures Contents() == old(Contents()) && peak == if room then Max(old(peak), len + 1) else old(peak)
    {
      hide CapFrom;
      CapNext(256, peak);
      room := true;
      if len == dirs.Length {
        var newCap := dirs.Length * 2;
        room := heap.Alloc();
        if room {
          Grow(newCap);
        }
      }
      if room {
        peak := Max(peak, len + 1);
      }
    }

    /** Moves the directories to a larger array. */
    method Grow(newCap: nat)
      requires 0 < len <= dirs.Length <= newCap
      modifies this`dirs
      ensures fresh(dirs) && dirs.Length == newCap && dirs[..len] == old(dirs[..len])
    {
      var first := dirs[0];
      var grown := new Frame[newCap](_ => first);
      forall i | 0 <= i < len {
        grown[i] := dirs[i];
      }
      dirs := grown;
    }

    method Pop() returns (dir: Frame)
      requires Valid() && len > 0
      modifies this`len
      ensures Valid() && old(Contents()) == Contents() + [dir]
    {
      len := len - 1;
      dir := dirs[len];
    }
  }

  // ---- the walk ----

  /** Paths listed, and paths still to be found under the waiting directories. */
  ghost function Held(list: FileList, stack: DirStack, exts: seq<string>): multiset<string>
    requires list.Valid() && stack.Valid()
    reads list, list.paths, stack, stack.dirs
  {
    multiset(list.Contents()) + FoundOn(stack.Contents(), exts)
  }

  /** The explicit-stack walk terminates. What it lists and what failed allocations made it lose are
      together, as a multiset, exactly what the recursive walk finds; without a failure nothing is
      lost. `stackCap` is the largest capacity the stack had. */
  method WalkDir(root: Frame, list: FileList, exts: seq<string>, heap: Heap)
    returns (ghost lost: multiset<string>, ghost stackCap: nat)
    requires list.Valid()
    modifies list, list.paths, heap
    ensures list.Valid() && (list.paths == old(list.paths) || fresh(list.paths)) && old(heap.next) <= heap.next
    ensures multiset(list.Contents()) + lost == multiset(old(list.Contents())) + multiset(FoundUnder(root, exts))
    ensures NoFailure(heap.ok, old(heap.next), heap.next) ==>
              lost == multiset{} && (old(list.Tight()) ==> list.Tight())
    ensures !(heap.ok(old(heap.next)) && heap.ok(old(heap.next) + 1)) ==> list.Contents() == old(list.Contents())
    ensures 1 + Size(root.children) <= MAX_WAITING ==> stackCap <= INT_MAX
  {
    hide FileList.Valid, FileList.Tight, FileList.Contents, Size, Found, StackSize, CapFrom, Held, FoundUnder;
    lost, stackCap := multiset(FoundUnder(root, exts)), 0;
    var granted := heap.Alloc();
    if !granted {
      return;
    }
    var copied := heap.Alloc();
    if !copied {
      return;
    }
    var stack := new DirStack(root);
    RootHeld(list, stack, root, exts);
    lost := DrainStack(list, stack, exts, heap, 1 + Size(root.children));
    StackCapFits(stack.peak);
    stackCap := stack.dirs.Length;
  }

  lemma RootHeld(list: FileList, stack: DirStack, root: Frame, exts: seq<string>)
    requires list.Valid() && stack.Valid() && stack.Contents() == [root]
    ensures Held(list, stack, exts) == multiset(list.Contents()) + multiset(FoundUnder(root, exts))
    ensures StackSize([root]) == 1 + Size(root.children)
  {
    Pushed([], root, exts);
    assert [] + [root] == [root];
  }

  /** The loop over the waiting directories. */
  method DrainStack(list: FileList, stack: DirStack, exts: seq<string>, heap: Heap, ghost bound: nat)
    returns (ghost lost: multiset<string>)
    requires list.Valid() && stack.Valid() && StackSize(stack.Contents()) <= bound && stack.peak <= bound
    modifies list, list.paths, stack, stack.dirs, heap
    ensures list.Valid() && (list.paths == old(list.paths) || fresh(list.paths)) && old(heap.next) <= heap.next
    ensures multiset(list.Contents()) + lost == old(Held(list, stack, exts))
    ensures NoFailure(heap.ok, old(heap.next), heap.next) ==>
              lost == multiset{} && (old(list.Tight()) ==> list.Tight())
    ensures stack.Valid() && stack.peak <= bound
    ensures bound <= MAX_WAITING ==> stack.dirs.Length <= INT_MAX
  {
    hide FileList.Valid, FileList.Tight, FileList.Contents, DirStack.Valid, DirStack.Contents;
    hide Size, Found, StackSize, FoundOn, Held;
    lost := multiset{};
    while stack.len > 0
      invariant list.Valid() && (list.paths == old(list.paths) || fresh(list.paths)) && old(heap.next) <= heap.next
      invariant stack.Valid() && (stack.dirs == old(stack.dirs) || fresh(stack.dirs))
      invariant StackSize(stack.Contents()) <= bound && stack.peak <= bound
      invariant Held(list, stack, exts) + lost == old(Held(list, stack, exts))
      invariant NoFailure(heap.ok, old(heap.next), heap.next) ==>
                  lost == multiset{} && (old(list.Tight()) ==> list.Tight())
      decreases StackSize(stack.Contents())
    {
      ghost var more := ReadTop(list, stack, exts, heap);
      lost := lost + more;
    }
    NothingHeld(list, stack, exts);
    CapacityFits(stack);
  }

  lemma CapacityFits(stack: DirStack)
    requires stack.Valid()
    ensures stack.peak <= MAX_WAITING ==> stack.dirs.Length <= INT_MAX
  {
    StackCapFits(stack.peak);
  }

  /** One iteration: the directory on top is taken and, when it can be opened, read. */
  method ReadTop(list: FileList, stack: DirStack, exts: seq<string>, heap: Heap) returns (ghost lost: multiset<string>)
    requires list.Valid() && stack.Valid() && stack.len > 0
    modifies list, list.paths, stack, stack.dirs, heap
    ensures list.Valid() && (list.paths == old(list.paths) || fresh(list.paths)) && old(heap.next) <= heap.next
    ensures stack.Valid() && (stack.dirs == old(stack.dirs) || fresh(stack.dirs))
    ensures Held(list, stack, exts) + lost == old(Held(list, stack, exts))
    ensures NoFailure(heap.ok, old(heap.next), heap.next) ==>
              lost == multiset{} && (old(list.Tight()) ==> list.Tight())
    ensures StackSize(stack.Contents()) < old(StackSize(stack.Contents()))
    ensures stack.peak <= Max(old(stack.peak), old(StackSize(stack.Contents())))
  {
    hide FileList.Valid, FileList.Tight, FileList.Contents, DirStack.Valid, DirStack.Contents;
    hide Size, Found, StackSize, FoundOn, Held, NoFailure;
    var dir := TakeDir(list, stack, exts);
    lost := multiset{};
    if dir.readable {
      lost := ReadDir(list, stack, dir, exts, heap);
    }
  }

  lemma NothingHeld(list: FileList, stack: DirStack, exts: seq<string>)
    requires list.Valid() && stack.Valid() && stack.len == 0
    ensures Held(list, stack, exts) == multiset(list.Contents())
  {
  }

  /** The directory on top leaves the stack. */
  method TakeDir(list: FileList, stack: DirStack, exts: seq<string>) returns (dir: Frame)
    requires list.Valid() && stack.Valid() && stack.len > 0
    modifies stack`len
    ensures stack.Valid() && old(Held(list, stack, exts)) == Held(list, stack, exts) + multiset(FoundUnder(dir, exts))
    ensures old(StackSize(stack.Contents())) == StackSize(stack.Contents()) + 1 + Size(dir.children)
  {
    hide FileList.Valid, FileList.Contents, DirStack.Valid, DirStack.Contents, Size, StackSize, FoundOn, FoundUnder;
    dir := stack.Pop();
    Pushed(stack.Contents(), dir, exts);
  }

  /** Reading one directory: files go to the list, directories to the stack. */
  method ReadDir(list: FileList, stack: DirStack, dir: Frame, exts: seq<string>, heap: Heap)
    returns (ghost lost: multiset<string>)
    requires list.Valid() && stack.Valid()
    modifies list, list.paths, stack, stack.dirs, heap
    ensures list.Valid() && (list.paths == old(list.paths) || fresh(list.paths)) && old(heap.next) <= heap.next
    ensures stack.Valid() && (stack.dirs == old(stack.dirs) || fresh(stack.dirs))
    ensures Held(list, stack, exts) + lost
         == old(Held(list, stack, exts)) + multiset(Found(dir.path, dir.children, exts))
    ensures NoFailure(heap.ok, old(heap.next), heap.next) ==>
              lost == multiset{} && (old(list.Tight()) ==> list.Tight())
    ensures StackSize(stack.Contents()) <= old(StackSize(stack.Contents())) + Size(dir.children)
    ensures stack.peak <= Max(old(stack.peak), old(StackSize(stack.Contents())) + Size(dir.children))
  {
    hide FileList.Valid, FileList.Tight, FileList.Contents, DirStack.Valid, DirStack.Contents, Held, NoFailure;
    hide Size, Found, FoundIn, StackSize, FoundOn;
    ghost var total := Held(list, stack, exts) + multiset(Found(dir.path, dir.children, exts));
    ghost var size := StackSize(stack.Contents()) + Size(dir.children);
    ghost var start, tight := heap.next, list.Tight();
    lost := multiset{};
    assert dir.children[0..] == dir.children;
    for i := 0 to |dir.children|
      invariant list.Valid() && (list.paths == old(list.paths) || fresh(list.paths)) && start <= heap.next
      invariant stack.Valid() && (stack.dirs == old(stack.dirs) || fresh(stack.dirs))
      invariant Held(list, stack, exts) + lost + multiset(Found(dir.path, dir.children[i..], exts)) == total
      invariant NoFailure(heap.ok, start, heap.next) ==> lost == multiset{} && (tight ==> list.Tight())
      invariant StackSize(stack.Contents()) + Size(dir.children[i..]) <= size
      invariant stack.peak <= Max(old(stack.peak), size)
    {
      ghost var held, before := Held(list, stack, exts), heap.next;
      ghost var more := ReadNext(list, stack, dir.path, dir.children[i..], exts, heap);
      assert dir.children[i..][1..] == dir.children[i + 1..];
      Regroup(held, lost, multiset(Found(dir.path, dir.children[i..], exts)), Held(list, stack, exts), more,
              multiset(Found(dir.path, dir.children[i + 1..], exts)));
      FailureSplit(heap.ok, start, before, heap.next);
      lost := lost + more;
    }
    assert dir.children[|dir.children|..] == [];
    NoEntry(dir.path, exts);
  }

  /** One iteration of the loop over a directory's entries. */
  method ReadNext(list: FileList, stack: DirStack, path: string, rest: seq<Node>, exts: seq<string>, heap: Heap)
    returns (ghost lost: multiset<string>)
    requires list.Valid() && stack.Valid() && rest != []
    modifies list, list.paths, stack, stack.dirs, heap
    ensures list.Valid() && (list.paths == old(list.paths) || fresh(list.paths)) && old(heap.next) <= heap.next
    ensures stack.Valid() && (stack.dirs == old(stack.dirs) || fresh(stack.dirs))
    ensures Held(list, stack, exts) + lost + multiset(Found(path, rest[1..], exts))
         == old(Held(list, stack, exts)) + multiset(Found(path, rest, exts))
    ensures NoFailure(heap.ok, old(heap.next), heap.next) ==>
              lost == multiset{} && (old(list.Tight()) ==> list.Tight())
    ensures StackSize(stack.Contents()) + Size(rest[1..]) <= old(StackSize(stack.Contents())) + Size(rest)
    ensures stack.peak <= Max(old(stack.peak), old(StackSize(stack.Contents())) + Size(rest))
  {
    hide FileList.Valid, FileList.Tight, FileList.Contents, DirStack.Valid, DirStack.Contents, Held, NoFailure;
    hide Size, Found, FoundIn, StackSize, FoundOn;
    NextEntry(path, rest, rest[1..], exts);
    lost := ReadEntry(list, stack, path, rest[0], exts, heap);
  }

  lemma NextEntry(path: string, rest: seq<Node>, after: seq<Node>, exts: seq<string>)
    requires rest != [] && after == rest[1..]
    ensures multiset(Found(path, rest, exts))
         == multiset(FoundIn(path, rest[0], exts)) + multiset(Found(path, after, exts))
    ensures Size(rest) == SizeOf(rest[0]) + Size(after)
  {
  }

  lemma Regroup(held: multiset<string>, lost: multiset<string>, rest: multiset<string>,
                held': multiset<string>, more: multiset<string>, rest': multiset<string>)
    requires held' + more + rest' == held + rest
    ensures held' + (lost + more) + rest' == held + lost + rest
  {
    assert held' + (lost + more) + rest' == (held' + more + rest') + lost;
  }

  lemma NoEntry(path: string, exts: seq<string>)
    ensures multiset(Found(path, [], exts)) == multiset{}
  {
  }

  method PushDir(list: FileList, stack: DirStack, dir: Frame, exts: seq<string>, heap: Heap)
    returns (ghost lost: multiset<string>)
    requires list.Valid() && stack.Valid()
    modifies stack, stack.dirs, heap
    ensures stack.Valid() && (stack.dirs == old(stack.dirs) || fresh(stack.dirs)) && old(heap.next) <= heap.next
    ensures list.Valid()
    ensures Held(list, stack, exts) + lost == old(Held(list, stack, exts)) + multiset(FoundUnder(dir, exts))
    ensures NoFailure(heap.ok, old(heap.next), heap.next) ==> lost == multiset{}
    ensures StackSize(stack.Contents()) <= old(StackSize(stack.Contents())) + 1 + Size(dir.children)
    ensures stack.peak <= Max(old(stack.peak), old(StackSize(stack.Contents())) + 1)
  {
    hide FileList.Valid, FileList.Contents, DirStack.Valid, DirStack.Contents;
    hide Size, StackSize, FoundOn, FoundUnder, NoFailure;
    Pushed(stack.Contents(), dir, exts);
    ghost var added := stack.Push(dir, heap);
    lost := if added then multiset{} else multiset(FoundUnder(dir, exts));
  }

  method AddFile(list: FileList, stack: DirStack, path: string, exts: seq<string>, heap: Heap)
    returns (ghost lost: multiset<string>)
    requires list.Valid() && stack.Valid()
    modifies list, list.paths, heap
    ensures list.Valid() && (list.paths == old(list.paths) || fresh(list.paths)) && old(heap.next) <= heap.next
    ensures stack.Valid() && Held(list, stack, exts) + lost == old(Held(list, stack, exts)) + multiset{path}
    ensures NoFailure(heap.ok, old(heap.next), heap.next) ==> lost == multiset{} && list.Tight()
  {
    hide FileList.Valid, FileList.Tight, FileList.Contents, DirStack.Valid, DirStack.Contents, FoundOn, NoFailure;
    ghost var added := list.Add(path, heap);
    lost := if added then multiset{} else multiset{path};
  }

  method ReadEntry(list: FileList, stack: DirStack, path: string, entry: Node, exts: seq<string>, heap: Heap)
    returns (ghost lost: multiset<string>)
    requires list.Valid() && stack.Valid()
    modifies list, list.paths, stack, stack.dirs, heap
    ensures list.Valid() && (list.paths == old(list.paths) || fresh(list.paths)) && old(heap.next) <= heap.next
    ensures stack.Valid() && (stack.dirs == old(stack.dirs) || fresh(stack.dirs))
    ensures Held(list, stack, exts) + lost == old(Held(list, stack, exts)) + multiset(FoundIn(path, entry, exts))
    ensures NoFailure(heap.ok, old(heap.next), heap.next) ==>
              lost == multiset{} && (old(list.Tight()) ==> list.Tight())
    ensures StackSize(stack.Contents()) <= old(StackSize(stack.Contents())) + SizeOf(entry)
    ensures stack.peak <= Max(old(stack.peak), old(StackSize(stack.Contents())) + SizeOf(entry))
  {
    hide FileList.Valid, FileList.Tight, FileList.Contents, DirStack.Valid, DirStack.Contents;
    hide Size, Found, StackSize, FoundOn, Held, NoFailure;
    lost := multiset{};
    if Skipped(path, entry.name) {
      return;
    }
    var full := FullPath(path, entry.name);
    match entry {
      case Other(_) =>
      case Dir(_, readable, children) =>
        var dir := Frame(full, readable, children);
        lost := PushDir(list, stack, dir, exts, heap);
      case File(_) =>
        var take := ShouldInclude(full, exts);
        if take {
          lost := AddFile(list, stack, full, exts, heap);
        }
    }
  }

  // ---- the program's walk ----

  ghost predicate SourcePath(p: string) {
    || EndsIn(p, ".c") || EndsIn(p, ".h") || EndsIn(p, ".cpp") || EndsIn(p, ".hpp") || EndsIn(p, ".java")
    || EndsIn(p, ".py") || EndsIn(p, ".rs") || EndsIn(p, ".go") || EndsIn(p, ".js") || EndsIn(p, ".ts")
  }

  /** `p` is the path of a source file under the root, with no hidden name on the way. */
  ghost predicate Source(root: Frame, p: string) {
    && root.readable && |p| < 1024 && SourcePath(p)
    && exists names :: FileAt(root.children, names) && Visible(root.path, names, p)
  }

  lemma ListedSource(p: string)
    ensures Listed(p, INCLUDE_EXTS) <==> SourcePath(p)
  {
    hide EndsIn;
    var e := INCLUDE_EXTS;
    assert |e| == 10 && e[0] == ".c" && e[1] == ".h" && e[2] == ".cpp" && e[3] == ".hpp" && e[4] == ".java";
    assert e[5] == ".py" && e[6] == ".rs" && e[7] == ".go" && e[8] == ".js" && e[9] == ".ts";
  }

  /** The recursive walk with the program's extensions finds exactly the source files. */
  lemma FoundAreSources(root: Frame, p: string)
    ensures p in FoundUnder(root, INCLUDE_EXTS) <==> Source(root, p)
  {
    ListedSource(p);
    hide Listed, SourcePath, FileAt, Joined, Found;
    FoundExactly(root.path, root.children, INCLUDE_EXTS, p);
    if names :| FileAt(root.children, names) && Visible(root.path, names, p) && |p| < 1024 && SourcePath(p) {
      assert Fine(root.path, names, INCLUDE_EXTS, p);
    }
    if names :| FileAt(root.children, names) && Fine(root.path, names, INCLUDE_EXTS, p) {
      assert Visible(root.path, names, p);
    }
  }

  /** The program's walk: an empty list and its own extensions. Every path listed is a source file;
      with memory available every source file is listed, and the list's capacity stays an int exactly
      when no more than MAX_LISTED are found. */
  method ListSources(root: Frame, heap: Heap) returns (list: FileList, ghost lost: multiset<string>)
    modifies heap
    ensures fresh(list) && list.Valid()
    ensures multiset(list.Contents()) + lost == multiset(FoundUnder(root, INCLUDE_EXTS))
    ensures forall p :: p in list.Contents() ==> Source(root, p)
    ensures NoFailure(heap.ok, old(heap.next), heap.next) ==>
              && lost == multiset{} && (forall p :: Source(root, p) ==> p in list.Contents())
              && (list.paths.Length <= INT_MAX <==> |FoundUnder(root, INCLUDE_EXTS)| <= MAX_LISTED)
  {
    list := new FileList();
    ghost var stackCap;
    lost, stackCap := WalkDir(root, list, INCLUDE_EXTS, heap);
    assert |multiset(list.Contents())| == list.count;
    ListCapFits(list.count);
    ListedAreSources(list.Contents(), lost, root);
  }

  lemma ListedAreSources(listed: seq<string>, lost: multiset<string>, root: Frame)
    requires multiset(listed) + lost == multiset(FoundUnder(root, INCLUDE_EXTS))
    ensures forall p :: p in listed ==> Source(root, p)
    ensures lost == multiset{} ==> forall p :: Source(root, p) ==> p in listed
  {
    hide FoundUnder, Source;
    forall p
      ensures p in listed ==> Source(root, p)
      ensures lost == multiset{} && Source(root, p) ==> p in listed
    {
      FoundAreSources(root, p);
      assert p in listed <==> p in multiset(listed);
      assert p in FoundUnder(root, INCLUDE_EXTS) <==> p in multiset(FoundUnder(root, INCLUDE_EXTS));
    }
  }
}
