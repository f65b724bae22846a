/** The VFS mount table: a linked list whose order makes first-match lookup find the longest
    mounted prefix of a path. */
module Vfs {

  /** A C string: no NUL inside. */
  type CString = s: string | forall i | 0 <= i < |s| :: s[i] != '\0'

  /** Where a file system is mounted. Its first character is meant to be a slash. */
  type MountPoint = s: CString | |s| > 0 witness "/"

  class Mount {
    const str: MountPoint
    const obj: nat       // the identity of the file system object
    var next: Mount?

    constructor (str: MountPoint, obj: nat)
      ensures this.str == str && this.obj == obj && next == null
    {
      this.str, this.obj, next := str, obj, null;
    }
  }

  predicate IsRoot(m: Mount) { |m.str| == 1 }

  predicate Slashed(str: MountPoint) { str[0] == '/' }

  /** Lookup takes the first character for a slash. */
  function Dir(str: MountPoint): (d: string)
    ensures |d| == |str| && (Slashed(str) ==> d == str)
  {
    "/" + str[1..]
  }

  // ---------- What lookup means ----------

  /** The path is the directory m or lies below it. */
  predicate Covers(m: string, path: string) {
    m <= path && (|path| == |m| || path[|m|] == '/')
  }

  /** m is mounted on a prefix of the absolute path. */
  predicate Holds(m: Mount, path: string) {
    IsRoot(m) || Covers(Dir(m.str), path)
  }

  /** Of two directories that cover a path, the shorter covers the longer. */
  lemma CoversNested(a: string, b: string, path: string)
    requires Covers(a, path) && Covers(b, path) && |a| <= |b|
    ensures Covers(a, b)
  {
    assert forall i | 0 <= i < |a| :: a[i] == path[i] && b[i] == path[i];
    assert |a| < |b| ==> b[|a|] == path[|a|];
  }

  // ---------- The order of the table ----------

  /** Root mounts are last, and of two others the earlier is never a prefix of the later; so
      their mount points are distinct and nested ones come first. */
  ghost predicate Ordered(list: seq<Mount>) {
    && (forall i, j | 0 <= i < j < |list| && IsRoot(list[i]) :: IsRoot(list[j]))
    && (forall i, j | 0 <= i < j < |list| && !IsRoot(list[i]) && !IsRoot(list[j]) ::
          !Covers(Dir(list[i].str), Dir(list[j].str)))
  }

  /** The first mount that holds the path. */
  function First(list: seq<Mount>, path: string): (i: nat)
    ensures i <= |list|
    ensures i < |list| ==> Holds(list[i], path)
    ensures forall j | 0 <= j < i :: !Holds(list[j], path)
  {
    if list == [] || Holds(list[0], path) then 0 else 1 + First(list[1..], path)
  }

  /** In an ordered table the first match is the longest. */
  lemma FirstIsLongest(list: seq<Mount>, path: string, j: nat)
    requires Ordered(list) && j < |list| && Holds(list[j], path)
    ensures First(list, path) < |list| && |list[j].str| <= |list[First(list, path)].str|
  {
    var i := First(list, path);
    if j > i && !IsRoot(list[i]) && !IsRoot(list[j]) && |list[i].str| < |list[j].str| {
      CoversNested(Dir(list[i].str), Dir(list[j].str), path);
      assert false;
    }
  }

  /** The place a new mount goes: before the first root mount. */
  function InsertAt(list: seq<Mount>): (k: nat)
    ensures k <= |list|
    ensures k < |list| ==> IsRoot(list[k])
    ensures forall i | 0 <= i < k :: !IsRoot(list[i])
  {
    if list == [] || IsRoot(list[0]) then 0 else 1 + InsertAt(list[1..])
  }

  lemma RootsFrom(list: seq<Mount>)
    requires Ordered(list)
    ensures forall i | InsertAt(list) <= i < |list| :: IsRoot(list[i])
  {
  }

  ghost function Insert(list: seq<Mount>, m: Mount): seq<Mount> {
    list[..InsertAt(list)] + [m] + list[InsertAt(list)..]
  }

  /** The mount point is free: nothing but the root is mounted on it or above it. */
  ghost predicate Free(list: seq<Mount>, str: MountPoint) {
    |str| == 1 || forall i | 0 <= i < |list| && !IsRoot(list[i]) :: !Covers(Dir(list[i].str), Dir(str))
  }

  lemma InsertFreeKeepsOrder(list: seq<Mount>, m: Mount)
    requires Ordered(list) && Free(list, m.str)
    ensures Ordered(Insert(list, m))
  {
    var k, list' := InsertAt(list), Insert(list, m);
    forall i, j | 0 <= i < j < |list'| && IsRoot(list'[i])
      ensures IsRoot(list'[j])
    {
      RootsFrom(list);
    }
    forall i, j | 0 <= i < j < |list'| && !IsRoot(list'[i]) && !IsRoot(list'[j])
      ensures !Covers(Dir(list'[i].str), Dir(list'[j].str))
    {
      RootsFrom(list);
    }
  }

  /** A new mount keeps the order exactly when its place is free. */
  lemma InsertKeepsOrder(list: seq<Mount>, m: Mount)
    requires Ordered(list)
    ensures Ordered(Insert(list, m)) <==> Free(list, m.str)
  {
    if Free(list, m.str) {
      InsertFreeKeepsOrder(list, m);
    } else {
      var i :| 0 <= i < |list| && !IsRoot(list[i]) && Covers(Dir(list[i].str), Dir(m.str));
      RootsFrom(list);
      var k := InsertAt(list);
      assert Insert(list, m)[i] == list[i] && Insert(list, m)[k] == m;
    }
  }

  // ---------- Unmounting ----------

  datatype Target = ByName(name: CString) | ByObject(o: nat)

  predicate IsTarget(m: Mount, t: Target) {
    match t
    case ByName(name) => m.str == name
    case ByObject(o) => m.obj == o
  }

  function FirstTarget(list: seq<Mount>, t: Target): (i: nat)
    ensures i <= |list|
    ensures i < |list| ==> IsTarget(list[i], t)
    ensures forall j | 0 <= j < i :: !IsTarget(list[j], t)
  {
    if list == [] || IsTarget(list[0], t) then 0 else 1 + FirstTarget(list[1..], t)
  }

  function Remove(list: seq<Mount>, i: nat): seq<Mount>
    requires i < |list|
  {
    list[..i] + list[i + 1..]
  }

  lemma RemoveKeepsOrder(list: seq<Mount>, k: nat)
    requires Ordered(list) && k < |list|
    ensures Ordered(Remove(list, k))
  {
    var list' := Remove(list, k);
    forall i, j | 0 <= i < j < |list'|
      ensures IsRoot(list'[i]) ==> IsRoot(list'[j])
      ensures !IsRoot(list'[i]) && !IsRoot(list'[j]) ==> !Covers(Dir(list'[i].str), Dir(list'[j].str))
    {
      var i', j' := if i < k then i else i + 1, if j < k then j else j + 1;
      assert list'[i] == list[i'] && list'[j] == list[j'];
    }
  }

  /** Unmounting by name what has just been mounted gives back the table as it was. */
  lemma UmountUndoesMount(list: seq<Mount>, m: Mount)
    requires Ordered(list) && Free(list, m.str)
    ensures var list' := Insert(list, m);
            var i := FirstTarget(list', ByName(m.str));
            i < |list'| && list'[i] == m && Remove(list', i) == list
    ensures (forall j | 0 <= j < |list| :: list[j].obj != m.obj) ==>
              FirstTarget(Insert(list, m), ByObject(m.obj)) == FirstTarget(Insert(list, m), ByName(m.str))
  {
    var list', k := Insert(list, m), InsertAt(list);
    assert list'[k] == m;
    forall j | 0 <= j < k
      ensures !IsTarget(list'[j], ByName(m.str))
    {
      if list[j].str == m.str {
        assert Covers(Dir(list[j].str), Dir(m.str));
      }
    }
    assert FirstTarget(list', ByName(m.str)) == k;
    if forall j | 0 <= j < |list| :: list[j].obj != m.obj {
      assert FirstTarget(list', ByObject(m.obj)) == k by {
        assert forall j | 0 <= j < k :: list'[j] == list[j];
      }
    }
  }

  // ---------- The table itself ----------

  datatype Found = AtRoot | NotFound | At(m: Mount, rest: string)

  datatype Errno = OK | EPERM | EINVAL | ENODEV | Raised

  /** A path as seen from the virtual root. */
  function Absolute(path: string): string {
    if path != "" && path[0] == '/' then path else "/" + path
  }

  /** The path inside the file system: "/" for the mount point itself, and from the next slash
      below it; a root mount gets the path as it was given. */
  function RestOf(m: Mount, path: string): string
    requires Holds(m, Absolute(path))
  {
    if IsRoot(m) then path
    else if |Absolute(path)| == |m.str| then "/"
    else Absolute(path)[|m.str|..]
  }

  /** What lookup must return, for a current directory cur (null is the virtual root). */
  ghost function Lookup(list: seq<Mount>, cur: Mount?, path: string): Found {
    if Absolute(path) != path && cur != null then At(cur, path)
    else if Absolute(path) == "/" then AtRoot
    else FirstFound(list, path)
  }

  ghost function FirstFound(list: seq<Mount>, path: string): Found {
    var i := First(list, Absolute(path));
    if i < |list| then At(list[i], RestOf(list[i], path)) else NotFound
  }

  /** The mount and the path inside it make up the path again. */
  lemma RestIsTheRest(m: Mount, path: string)
    requires Holds(m, Absolute(path)) && !IsRoot(m)
    ensures RestOf(m, path) != "" && RestOf(m, path)[0] == '/'
    ensures Absolute(path) == Dir(m.str) || Absolute(path) == Dir(m.str) + RestOf(m, path)
  {
  }

  /** What a path is found to be, told without the walk: a relative path inside a volume stays as it
      is; "" and "/" are the virtual root; any other path belongs to the first mount that holds it. A
      root mount gets the whole path; otherwise the mount's directory and the rest make up the path,
      and the directory itself is "/". */
  ghost predicate Finds(list: seq<Mount>, cur: Mount?, path: string, found: Found) {
    var slashed := path != "" && path[0] == '/';
    var full := if slashed then path else "/" + path;
    if !slashed && cur != null then found.At? && found.m == cur && found.rest == path
    else if path == "" || path == "/" then found.AtRoot?
    else if forall j | 0 <= j < |list| :: |list[j].str| > 1 && !Covers("/" + list[j].str[1..], full) then found.NotFound?
    else
      && found.At?
      && (exists i | 0 <= i < |list| :: found.m == list[i]
            && forall j | 0 <= j < i :: |list[j].str| > 1 && !Covers("/" + list[j].str[1..], full))
      && (if |found.m.str| == 1 then found.rest == path
          else
            var dir := "/" + found.m.str[1..];
            if full == dir then found.rest == "/"
            else found.rest != "" && found.rest[0] == '/' && full == dir + found.rest)
  }

  lemma LookupFinds(list: seq<Mount>, cur: Mount?, path: string)
    ensures Finds(list, cur, path, Lookup(list, cur, path))
  {
    var slashed := path != "" && path[0] == '/';
    var full := if slashed then path else "/" + path;
    assert full == Absolute(path);
    if (slashed || cur == null) && path != "" && path != "/" {
      assert forall j | 0 <= j < |list| :: Holds(list[j], full) <==> |list[j].str| == 1 || Covers("/" + list[j].str[1..], full);
      var i := First(list, full);
      hide Covers, First, Holds, Absolute;
      if i < |list| && |list[i].str| > 1 {
        RestIsTheRest(list[i], path);
      }
    }
  }

  // ---------- Whole runs ----------

  datatype TableOp = Mounting(m: Mount) | Umounting(t: Target)

  /** What one call does to the table, successful or not (the contracts of DoMount, for a mount
      point with its slash, and Umount). */
  ghost function Apply(list: seq<Mount>, op: TableOp): seq<Mount> {
    match op
    case Mounting(m) => if Free(list, m.str) then Insert(list, m) else list
    case Umounting(t) =>
      var i := FirstTarget(list, t);
      if i < |list| then Remove(list, i) else list
  }

  ghost function ApplyAll(ops: seq<TableOp>): seq<Mount> {
    if ops == [] then [] else Apply(ApplyAll(ops[..|ops| - 1]), ops[|ops| - 1])
  }

  lemma {:induction false} RunKeepsOrder(ops: seq<TableOp>)
    ensures Ordered(ApplyAll(ops))
    decreases |ops|
  {
    if ops != [] {
      var list := ApplyAll(ops[..|ops| - 1]);
      RunKeepsOrder(ops[..|ops| - 1]);
      match ops[|ops| - 1]
      case Mounting(m) =>
        if Free(list, m.str) {
          InsertKeepsOrder(list, m);
        }
      case Umounting(t) =>
        if FirstTarget(list, t) < |list| {
          RemoveKeepsOrder(list, FirstTarget(list, t));
        }
    }
  }

  /** After any sequence of mounts and umounts, looking up an absolute path other than "/" finds
      the longest mounted prefix of it, and nothing only when there is none. */
  lemma LookupFindsLongest(ops: seq<TableOp>, cur: Mount?, path: string)
    requires path != "" && path[0] == '/' && path != "/"
    ensures var list, found := ApplyAll(ops), Lookup(ApplyAll(ops), cur, path);
            && !found.AtRoot?
            && (found.NotFound? <==> forall j | 0 <= j < |list| :: !Holds(list[j], path))
            && (found.At? ==> found.m in list && Holds(found.m, path))
            && (forall j | found.At? && 0 <= j < |list| && Holds(list[j], path) :: |list[j].str| <= |found.m.str|)
  {
    var list := ApplyAll(ops);
    RunKeepsOrder(ops);
    forall j | 0 <= j < |list| && Holds(list[j], path)
      ensures First(list, path) < |list| && |list[j].str| <= |list[First(list, path)].str|
    {
      FirstIsLongest(list, path, j);
    }
  }

  class MountTable {
    var table: Mount?
    var cur: Mount?              // the current volume; null is the virtual root
    ghost var list: seq<Mount>   // the nodes, in order

    /** Linked, and the current volume is still mounted. */
    ghost predicate Valid()
      reads this, list
    {
      Linked() && (cur != null ==> cur in list)
    }

    ghost predicate InOrder()
      reads this
    {
      Ordered(list)
    }

    ghost predicate Linked()
      reads this, list
    {
      && table == NodeAt(list, 0)
      && (forall i | 0 <= i < |list| :: list[i].next == NodeAt(list, i + 1))
      && (forall i, j | 0 <= i < j < |list| :: list[i] != list[j])
    }

    /** `*vfsp = vfs`: hang a node in before the k-th one. */
    method Link(prev: Mount?, vfs: Mount, ghost k: nat)
      requires Linked() && k <= |list| && vfs !in list && vfs.next == NodeAt(list, k)
      requires prev == if k == 0 then null else list[k - 1]
      modifies this`table, this`list, prev
      ensures Linked() && list == old(list)[..k] + [vfs] + old(list)[k..]
    {
      ghost var was := list;
      if prev == null {
        table := vfs;
      } else {
        prev.next := vfs;
      }
      list := was[..k] + [vfs] + was[k..];
      InsertMoves(was, k, vfs, list);
      forall i | 0 <= i < |list|
        ensures list[i].next == NodeAt(list, i + 1)
      {
        if i > k {
          assert list[i].next == NodeAt(was, i);
        }
      }
    }

    /** `*vfsp = (*vfsp)->next`: take the k-th node out. */
    method Unlink(prev: Mount?, vfs: Mount, ghost k: nat)
      requires Linked() && k < |list| && vfs == list[k]
      requires prev == if k == 0 then null else list[k - 1]
      modifies this`table, this`list, prev
      ensures Linked() && list == Remove(old(list), k)
    {
      ghost var was := list;
      hide Remove;
      RemoveMoves(was, k);
      if prev == null {
        table := vfs.next;
      } else {
        prev.next := vfs.next;
      }
      list := Remove(was, k);
      forall i | 0 <= i < |list|
        ensures list[i].next == NodeAt(list, i + 1)
      {
        if i >= k {
          assert list[i] == was[i + 1] && list[i].next == NodeAt(was, i + 2);
        } else {
          assert list[i] == was[i];
        }
      }
    }

    constructor ()
      ensures Valid() && list == [] && cur == null
    {
      table, cur, list := null, null, [];
    }

    /** mp_vfs_lookup_path */
    method LookupPath(path: CString) returns (found: Found)
      requires Valid()
      ensures found == Lookup(list, cur, path) && Finds(list, cur, path, found)
    {
      hide Ordered, Linked, FirstFound, Finds;
      LookupFinds(list, cur, path);
      if (path != "" && path[0] == '/') || cur == null {
        var p := path;
        if path != "" && path[0] == '/' {
          p := path[1..];
        }
        if p == "" {
          return AtRoot;
        }
        assert Absolute(path) == "/" + p;
        found := Walk(path, p);
        return;
      }
      found := At(cur, path);
    }

    /** The walk along the list; p is the path without its leading slash. */
    method Walk(path: CString, p: CString) returns (found: Found)
      requires Linked() && p != "" && Absolute(path) == "/" + p
      ensures found == FirstFound(list, path)
    {
      hide Holds, RestOf, Absolute, First;
      var vfs := table;
      ghost var abs, i := Absolute(path), 0;
      while vfs != null
        invariant i <= |list| && vfs == NodeAt(list, i)
        invariant forall j | 0 <= j < i :: !Holds(list[j], abs)
        decreases |list| - i
      {
        FirstIs(list, abs, i);
        var hit, rest := Match(vfs, path, p);
        if hit {
          return At(vfs, rest);
        }
        vfs := vfs.next;
        i := i + 1;
      }
      FirstIsNone(list, abs);
      return NotFound;
    }

    /** Where a mount goes: the first root mount, or null at the end, and the node before it. */
    method RootPlace() returns (here: Mount?, prev: Mount?, ghost k: nat)
      requires Linked()
      ensures k == InsertAt(list) && here == NodeAt(list, k) && prev == if k == 0 then null else list[k - 1]
    {
      prev, here, k := null, table, 0;
      while here != null
        invariant k <= |list| && here == NodeAt(list, k) && prev == if k == 0 then null else list[k - 1]
        invariant forall j | 0 <= j < k :: !IsRoot(list[j])
        decreases |list| - k
      {
        if |here.str| == 1 {
          break;
        }
        prev, here := here, here.next;
        k := k + 1;
      }
      InsertIs(list, k);
    }

    method FindTarget(t: Target) returns (prev: Mount?, vfs: Mount?, ghost k: nat)
      requires Linked()
      ensures k == FirstTarget(list, t) && vfs == NodeAt(list, k) && prev == if k == 0 then null else list[k - 1]
    {
      prev, vfs, k := null, table, 0;
      while vfs != null
        invariant k <= |list| && vfs == NodeAt(list, k) && prev == if k == 0 then null else list[k - 1]
        invariant forall j | 0 <= j < k :: !IsTarget(list[j], t)
        decreases |list| - k
      {
        if IsTarget(vfs, t) {
          break;
        }
        prev, vfs := vfs, vfs.next;
        k := k + 1;
      }
      TargetIs(list, t, k);
    }

    /** mp_vfs_mount. `raises` says whether the file system's own mount method raises. A mount is
        refused exactly when something other than the root is mounted on or above its place. */
    method DoMount(str: MountPoint, obj: nat, raises: bool) returns (e: Errno, ghost m: Mount?)
      requires Valid()
      modifies this, list
      ensures Valid() && cur == old(cur)
      ensures e == if raises then Raised else if Mountable(old(list), cur, str) then OK else EPERM
      ensures old(InOrder()) && Slashed(str) ==> InOrder() && (Mountable(old(list), cur, str) <==> Free(old(list), str))
      ensures e == OK ==> m != null && fresh(m) && m.str == str && m.obj == obj && list == Insert(old(list), m)
      ensures e != OK ==> list == old(list)
    {
      hide Ordered, Free, Lookup, Slashed, Insert, Mountable, Linked;
      m := null;
      var vfs := new Mount(str, obj);
      MountKeepsOrder(list, cur, vfs);
      if raises {
        return Raised, null;
      }
      var existing := LookupPath(str);
      MountableWhen(list, cur, str, existing);
      if existing.At? {
        if |vfs.str| != 1 && |existing.m.str| == 1 {
        } else {
          return EPERM, null;
        }
      }
      var here, prev;
      ghost var k;
      here, prev, k := RootPlace();
      vfs.next := here;
      ghost var was := list;
      Link(prev, vfs, k);
      assert list == Insert(was, vfs) by { InsertAtPlace(was, vfs, k); }
      return OK, vfs;
    }

    /** The current volume changes, and the table does not. */
    method SetCur(m: Mount?)
      requires Linked()
      modifies this`cur
      ensures Linked() && cur == m
    {
      cur := m;
    }

    /** mp_vfs_umount. The first match goes; the current volume never stays behind unmounted,
        even when the file system's own umount method then raises. */
    method Umount(t: Target, raises: bool) returns (e: Errno)
      requires Valid()
      modifies this, list
      ensures Valid() && (old(InOrder()) ==> InOrder())
      ensures IsFirst(old(list), t, FirstTarget(old(list), t))
      ensures var i := FirstTarget(old(list), t);
              if i == |old(list)| then e == EINVAL && list == old(list) && cur == old(cur)
              else && e == (if raises then Raised else OK)
                   && list == Remove(old(list), i)
                   && cur == if old(cur) == old(list)[i] then null else old(cur)
    {
      hide Ordered, IsTarget, Remove, Linked;
      var prev, vfs;
      ghost var k;
      prev, vfs, k := FindTarget(t);
      FirstTargetIsFirst(list, t);
      hide IsFirst;
      if vfs == null {
        return EINVAL;
      }
      if InOrder() {
        RemoveKeepsOrder(list, k);
      }
      StillThere(list, k, cur);
      Unlink(prev, vfs, k);
      if cur == vfs {
        SetCur(null);
      }
      e := if raises then Raised else OK;
    }

    /** mp_vfs_chdir. The current volume becomes what lookup finds, unless that is nothing or the
        file system's own chdir method raises. */
    method Chdir(path: CString, raises: bool) returns (e: Errno)
      requires Valid()
      modifies this`cur
      ensures Valid() && list == old(list)
      ensures var found := Lookup(list, old(cur), path);
              match found
              case NotFound => e == ENODEV && cur == old(cur)
              case At(m, _) => if raises then e == Raised && cur == old(cur) else e == OK && cur == m
              case AtRoot =>
                if raises && exists i :: 0 <= i < |list| && IsRoot(list[i])
                then e == Raised && cur == old(cur) else e == OK && cur == null
    {
      hide Ordered, Lookup, FirstFound, Absolute;
      var found := LookupPath(path);
      match found
      case AtRoot =>
        var vfs := table;
        ghost var k := 0;
        while vfs != null
          invariant k <= |list| && vfs == NodeAt(list, k)
          invariant forall j | 0 <= j < k :: !IsRoot(list[j])
          decreases |list| - k
        {
          if |vfs.str| == 1 {
            if raises {
              assert IsRoot(list[k]);
              return Raised;
            }
            break;
          }
          vfs := vfs.next;
          k := k + 1;
        }
        SetCur(null);
        return OK;
      case NotFound =>
        return ENODEV;
      case At(m, rest) =>
        if raises {
          return Raised;
        }
        LookupIsMounted(list, cur, path);
        SetCur(m);
        return OK;
    }
  }

  /** The comparison made at each node; p is the path without its leading slash. */
  method Match(vfs: Mount, path: CString, p: CString) returns (hit: bool, rest: string)
    requires Absolute(path) == "/" + p && p != ""
    ensures hit <==> Holds(vfs, Absolute(path))
    ensures hit ==> rest == RestOf(vfs, path)
  {
    var len := |vfs.str| - 1;
    SlashFirst(Dir(vfs.str), p);
    if len == 0 {
      return true, path;
    }
    if len <= |p| && p[..len] == vfs.str[1..] {
      if len < |p| && p[len] == '/' {
        return true, p[len..];
      } else if len == |p| {
        return true, "/";
      }
    }
    return false, "";
  }

  /** Comparing without the leading slashes is comparing with them. */
  lemma SlashFirst(m: string, p: string)
    requires |m| > 0 && m[0] == '/'
    ensures m <= "/" + p <==> |m| - 1 <= |p| && p[..|m| - 1] == m[1..]
    ensures |m| - 1 <= |p| ==> ("/" + p)[|m|..] == p[|m| - 1..]
  {
    var len := |m| - 1;
    if len <= |p| {
      assert ("/" + p)[..|m|] == "/" + p[..len];
      assert m == "/" + m[1..];
      if m <= "/" + p {
        assert m == ("/" + p)[..|m|];
        assert p[..len] == ("/" + p[..len])[1..];
      }
    }
  }

  ghost function NodeAt(list: seq<Mount>, i: nat): Mount? {
    if i < |list| then list[i] else null
  }

  /** After the k-th node is gone, the later ones stand one place earlier. */
  lemma RemoveMoves(list: seq<Mount>, k: nat)
    requires k < |list| && forall i, j | 0 <= i < j < |list| :: list[i] != list[j]
    ensures var r := Remove(list, k);
            && |r| == |list| - 1
            && (forall i | 0 <= i < |r| :: r[i] == list[if i < k then i else i + 1])
            && (forall i, j | 0 <= i < j < |r| :: r[i] != r[j])
  {
  }

  lemma InsertMoves(list: seq<Mount>, k: nat, m: Mount, r: seq<Mount>)
    requires k <= |list| && m !in list && forall i, j | 0 <= i < j < |list| :: list[i] != list[j]
    requires r == list[..k] + [m] + list[k..]
    ensures |r| == |list| + 1 && r[k] == m
    ensures forall i | 0 <= i < |r| && i != k :: r[i] == list[if i < k then i else i - 1]
    ensures forall i, j | 0 <= i < j < |r| :: r[i] != r[j]
  {
  }

  /** The i-th is the first with that mount point, or that file system; or there is none. */
  ghost predicate IsFirst(list: seq<Mount>, t: Target, i: nat) {
    && i <= |list|
    && match t
       case ByName(name) =>
         (forall j | 0 <= j < i :: list[j].str != name) && (i < |list| ==> list[i].str == name)
       case ByObject(o) =>
         (forall j | 0 <= j < i :: list[j].obj != o) && (i < |list| ==> list[i].obj == o)
  }

  lemma FirstTargetIsFirst(list: seq<Mount>, t: Target)
    ensures IsFirst(list, t, FirstTarget(list, t))
  {
  }

  lemma FirstIs(list: seq<Mount>, path: string, i: nat)
    requires i < |list| && forall j | 0 <= j < i :: !Holds(list[j], path)
    ensures Holds(list[i], path) ==> First(list, path) == i
  {
  }

  lemma FirstIsNone(list: seq<Mount>, path: string)
    requires forall j | 0 <= j < |list| :: !Holds(list[j], path)
    ensures First(list, path) == |list|
  {
  }

  lemma LookupIsMounted(list: seq<Mount>, cur: Mount?, path: string)
    requires cur != null ==> cur in list
    ensures Lookup(list, cur, path).At? ==> Lookup(list, cur, path).m in list
  {
  }

  /** What mount checks: nothing is found at its place, or only a root mount. */
  ghost predicate Mountable(list: seq<Mount>, cur: Mount?, str: MountPoint) {
    var found := Lookup(list, cur, str);
    !found.At? || (|str| != 1 && IsRoot(found.m))
  }

  lemma InsertAtPlace(list: seq<Mount>, m: Mount, k: nat)
    requires k == InsertAt(list)
    ensures Insert(list, m) == list[..k] + [m] + list[k..]
  {
  }

  /** With its slash, a mount point that passes the check keeps the order. */
  lemma MountKeepsOrder(list: seq<Mount>, cur: Mount?, m: Mount)
    ensures Ordered(list) && Slashed(m.str) ==>
              && (Mountable(list, cur, m.str) <==> Free(list, m.str))
              && (Mountable(list, cur, m.str) <==> Ordered(Insert(list, m)))
  {
    if Ordered(list) && Slashed(m.str) {
      FreeWhenFound(list, cur, m.str);
      InsertKeepsOrder(list, m);
    }
  }

  /** Without it, it need not: "ab" is accepted beside "/b", and stands for the same directory. */
  lemma WithoutItsSlash(a: Mount, b: Mount)
    requires a.str == "ab" && b.str == "/b"
    ensures Ordered([b]) && Mountable([b], null, a.str) && Insert([b], a) == [b, a] && !Ordered([b, a])
  {
    assert Dir(b.str)[1] == 'b' && "/ab"[1] == 'a';
    assert !Holds(b, "/ab");
    FirstIsNone([b], "/ab");
    assert InsertAt([b]) == 1;
    assert Covers(Dir([b, a][0].str), Dir([b, a][1].str));
  }

  lemma FreeWhenFound(list: seq<Mount>, cur: Mount?, str: MountPoint)
    requires Ordered(list) && Slashed(str)
    ensures Free(list, str) <==> Mountable(list, cur, str)
  {
    if |str| == 1 {
      assert str == "/";
    } else {
      var i := First(list, str);
      assert Dir(str) == str == Absolute(str);
      hide First, Covers, Dir, Slashed, RestOf;
      if i < |list| && !IsRoot(list[i]) {
        assert Holds(list[i], str);
        assert !Free(list, str);
      } else {
        forall j | 0 <= j < |list| && !IsRoot(list[j]) ensures !Covers(Dir(list[j].str), Dir(str)) {
          assert j < i && !Holds(list[j], str);
        }
      }
    }
  }

  lemma MountableWhen(list: seq<Mount>, cur: Mount?, str: MountPoint, found: Found)
    requires found == Lookup(list, cur, str)
    ensures Mountable(list, cur, str) <==> !found.At? || (|str| != 1 && |found.m.str| == 1)
  {
  }

  lemma InsertIs(list: seq<Mount>, k: nat)
    requires k <= |list| && (k < |list| ==> IsRoot(list[k])) && forall j | 0 <= j < k :: !IsRoot(list[j])
    ensures InsertAt(list) == k
  {
  }

  lemma TargetIs(list: seq<Mount>, t: Target, k: nat)
    requires k <= |list| && (k < |list| ==> IsTarget(list[k], t)) && forall j | 0 <= j < k :: !IsTarget(list[j], t)
    ensures FirstTarget(list, t) == k
  {
  }

  lemma StillThere(list: seq<Mount>, k: nat, m: Mount?)
    requires k < |list| && (m != null ==> m in list)
    ensures m != null && m != list[k] ==> m in Remove(list, k)
  {
    if m != null && m != list[k] {
      var i :| 0 <= i < |list| && list[i] == m;
      assert Remove(list, k)[if i < k then i else i - 1] == m;
    }
  }
}
