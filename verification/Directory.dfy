/** Directories: files made of 16-byte entries, as finite maps from names to inode numbers.

    A C string is a sequence of bytes; past its end it reads as NUL. */
module Directory {
  import opened Options
  import opened Blocks
  import opened DiskLayout
  import opened FileBlocks
  import opened FileBytes
  import opened FileSystem

  const DIRSIZ := 14
  const ENTRY := 16

  function At(s: seq<Byte>, k: nat): (c: Byte) {
    if k < |s| then s[k] else 0
  }

  /** The name in the first n bytes of s from k on: up to the first NUL. */
  function Key(s: seq<Byte>, k: nat, n: nat): (r: seq<Byte>)
    requires k <= n
    ensures |r| <= n - k
    decreases n - k
  {
    if k == n || At(s, k) == 0 then [] else [At(s, k)] + Key(s, k + 1, n)
  }

  function NameKey(s: seq<Byte>): (r: seq<Byte>) {
    Key(s, 0, DIRSIZ)
  }

  /** strncmp: zero exactly when the two name fields hold the same name. */
  method Strncmp(p: seq<Byte>, q: seq<Byte>, n: nat) returns (d: int)
    ensures d == 0 <==> Key(p, 0, n) == Key(q, 0, n)
  {
    var k := 0;
    while k < n && At(p, k) != 0 && At(p, k) == At(q, k)
      invariant 0 <= k <= n
      invariant Key(p, 0, n) == Key(q, 0, n) <==> Key(p, k, n) == Key(q, k, n)
    {
      SameHead(At(p, k), Key(p, k + 1, n), Key(q, k + 1, n));
      k := k + 1;
    }
    if k == n {
      return 0;
    }
    KeyBytes(p, k, n);
    KeyBytes(q, k, n);
    assert At(p, k) != At(q, k) ==> |Key(p, k, n)| == 0 || |Key(q, k, n)| == 0 || Key(p, k, n)[0] != Key(q, k, n)[0];
    return At(p, k) - At(q, k);
  }

  lemma SameHead(c: Byte, x: seq<Byte>, y: seq<Byte>)
    ensures [c] + x == [c] + y <==> x == y
  {
    if [c] + x == [c] + y {
      assert x == ([c] + x)[1..] && y == ([c] + y)[1..];
    }
  }

  /** What Key finds: non-NUL bytes up to a NUL or the end of the field. */
  lemma {:induction false} KeyBytes(s: seq<Byte>, k: nat, n: nat)
    requires k <= n
    ensures var x := Key(s, k, n);
            && (forall j | 0 <= j < |x| :: x[j] == At(s, k + j) && x[j] != 0)
            && (k + |x| == n || At(s, k + |x|) == 0)
    decreases n - k
  {
    if k < n && At(s, k) != 0 {
      KeyBytes(s, k + 1, n);
      var (x, y) := (Key(s, k, n), Key(s, k + 1, n));
      forall j | 0 <= j < |x| ensures x[j] == At(s, k + j) && x[j] != 0 {
        if j > 0 { assert x[j] == y[j - 1]; }
      }
    }
  }

  /** x is the bytes of s up to its NUL or its end, fourteen at most. */
  ghost predicate IsName(s: seq<Byte>, x: seq<Byte>) {
    x <= s && |x| <= 14 && 0 !in x && (|x| == 14 || |x| == |s| || s[|x|] == 0)
  }

  /** The name that a string stands for in a directory. */
  lemma NameIs(s: seq<Byte>, x: seq<Byte>)
    ensures x == NameKey(s) <==> IsName(s, x)
  {
    hide IsName, Key;
    KeyIsName(s);
    if IsName(s, x) {
      NotShorter(s, x, NameKey(s));
      NotShorter(s, NameKey(s), x);
    }
  }

  lemma KeyIsName(s: seq<Byte>)
    ensures IsName(s, NameKey(s))
  {
    hide Key;
    KeyBytes(s, 0, 14);
    var x := NameKey(s);
    assert |x| > 0 ==> x[|x| - 1] == At(s, |x| - 1) != 0;
    assert forall j | 0 <= j < |x| :: x[j] == s[j];
  }

  lemma NotShorter(s: seq<Byte>, x: seq<Byte>, y: seq<Byte>)
    requires IsName(s, x) && IsName(s, y)
    ensures y <= x
  {
  }

  lemma {:induction false} KeyIs(s: seq<Byte>, k: nat, n: nat, x: seq<Byte>)
    requires k + |x| <= n && (k + |x| == n || At(s, k + |x|) == 0)
    requires forall j | 0 <= j < |x| :: x[j] == At(s, k + j) && x[j] != 0
    ensures Key(s, k, n) == x
    decreases |x|
  {
    if x != [] {
      assert x[0] == At(s, k + 0);
      forall j | 0 <= j < |x[1..]| ensures x[1..][j] == At(s, k + 1 + j) && x[1..][j] != 0 {
        assert x[1..][j] == x[j + 1];
      }
      KeyIs(s, k + 1, n, x[1..]);
      assert x == [x[0]] + x[1..];
    }
  }

  /** strncpy: n bytes, the string cut off or padded with NULs. */
  method Strncpy(t: seq<Byte>, n: nat) returns (s: seq<Byte>)
    ensures |s| == n && Key(s, 0, n) == Key(t, 0, n)
  {
    ghost var x := Key(t, 0, n);
    KeyBytes(t, 0, n);
    s := [];
    var k := 0;
    while k < n
      invariant 0 <= k == |s| <= n && k <= |x|
      invariant forall j | 0 <= j < k :: s[j] == At(t, j)
    {
      s := s + [At(t, k)];
      k := k + 1;
      assert k - 1 < |x| ==> x[k - 1] == At(t, 0 + (k - 1));
      if At(t, k - 1) == 0 {
        break;
      }
      assert k <= |x|;
    }
    while k < n
      invariant 0 <= k == |s| <= n && |x| <= k
      invariant forall j | 0 <= j < k :: s[j] == if j < |x| then x[j] else 0
    {
      s := s + [0];
      k := k + 1;
    }
    KeyIs(s, 0, n, x);
  }

  // ----- entries -----

  function Entry(c: seq<Byte>, k: nat): (e: seq<Byte>)
    requires ENTRY * (k + 1) <= |c|
    ensures |e| == ENTRY
  {
    c[ENTRY * k..ENTRY * (k + 1)]
  }

  function Inum(e: seq<Byte>): (n: nat)
    requires |e| == ENTRY
  {
    var (lo: int, hi: int) := (e[0], e[1]);
    lo + 256 * hi
  }

  function Name(e: seq<Byte>): (n: seq<Byte>)
    requires |e| == ENTRY
  {
    NameKey(e[2..])
  }

  ghost predicate IsDir(c: seq<Byte>) {
    |c| % ENTRY == 0
  }

  /** Entry k is in use for this name. */
  ghost predicate Live(c: seq<Byte>, k: nat, name: seq<Byte>)
    requires ENTRY * (k + 1) <= |c|
  {
    Inum(Entry(c, k)) != 0 && Name(Entry(c, k)) == name
  }

  /** The directory maps the name to the inode number. */
  ghost predicate Binds(c: seq<Byte>, name: seq<Byte>, inum: nat) {
    exists k: nat :: ENTRY * (k + 1) <= |c| && Live(c, k, name) && Inum(Entry(c, k)) == inum
  }

  ghost predicate Bound(c: seq<Byte>, name: seq<Byte>) {
    exists k: nat :: ENTRY * (k + 1) <= |c| && Live(c, k, name)
  }

  /** No name occurs twice. */
  ghost predicate Unique(c: seq<Byte>) {
    forall k: nat, m: nat, name: seq<Byte> |
      ENTRY * (k + 1) <= |c| && ENTRY * (m + 1) <= |c| && Live(c, k, name) && Live(c, m, name) :: k == m
  }

  /** Overwriting a free entry, or adding one at the end. */
  lemma LinkEntry(c: seq<Byte>, k: nat, e: seq<Byte>, m: nat)
    requires IsDir(c) && ENTRY * k <= |c| && |e| == ENTRY
    requires ENTRY * (m + 1) <= |Written(c, ENTRY * k, e)|
    ensures IsDir(Written(c, ENTRY * k, e))
    ensures m != k ==> ENTRY * (m + 1) <= |c|
    ensures Entry(Written(c, ENTRY * k, e), m) == if m == k then e else Entry(c, m)
  {
    var c' := Written(c, ENTRY * k, e);
    if m != k {
      assert ENTRY * (m + 1) <= |c|;
      forall j | 0 <= j < ENTRY ensures Entry(c', m)[j] == Entry(c, m)[j] {
        assert Entry(c', m)[j] == c'[ENTRY * m + j];
      }
    }
  }

  /** The entry dirlink writes: the number in 16 bits, then the name field. */
  function NewEntry(de: seq<Byte>, inum: Word): (e: seq<Byte>)
    requires |de| == DIRSIZ
    ensures |e| == ENTRY && e[2..] == de && Inum(e) == inum % 0x1_0000 == e[0] as int + 256 * (e[1] as int)
  {
    TwoBytes(inum);
    var e: seq<Byte> := [inum % 0x100, inum / 0x100 % 0x100] + de;
    assert e[2..] == de;
    e
  }

  lemma TwoBytes(n: nat)
    ensures n % 0x100 + 0x100 * (n / 0x100 % 0x100) == n % 0x1_0000
  {
    var q, r := n / 0x1_0000, n % 0x1_0000;
    assert n == q * 0x1_0000 + r;
    assert n / 0x100 == q * 0x100 + r / 0x100;
  }

  /** In an empty directory, inode 65537 goes in as inode 1. */
  lemma WrappedLink(de: seq<Byte>)
    requires |de| == DIRSIZ
    ensures var e := NewEntry(de, 65537);
            var c := Written([], 0, e);
            Binds(c, Name(e), 1) && !Binds(c, Name(e), 65537)
  {
    hide Entry, Name;
    LinkMeaning([], 0, NewEntry(de, 65537));
  }

  /** What a new entry in a free place means: its name is bound to its number (unless that is 0),
      and every other name is bound as before. */
  lemma LinkMeaning(c: seq<Byte>, k: nat, e: seq<Byte>)
    requires IsDir(c) && Unique(c) && ENTRY * k <= |c| && |e| == ENTRY
    requires ENTRY * (k + 1) <= |c| ==> Inum(Entry(c, k)) == 0
    requires !Bound(c, Name(e))
    ensures var c' := Written(c, ENTRY * k, e);
            && IsDir(c') && Unique(c')
            && forall name: seq<Byte>, inum: nat ::
                 Binds(c', name, inum) <==>
                   if name == Name(e) then inum == Inum(e) && inum != 0 else Binds(c, name, inum)
  {
    hide Inum, Name, Entry, Written;
    var c' := Written(c, ENTRY * k, e);
    assert ENTRY * (k + 1) <= |c'|;
    LinkEntry(c, k, e, k);
    forall m: nat | ENTRY * (m + 1) <= |c'|
      ensures m != k ==> ENTRY * (m + 1) <= |c| && Entry(c', m) == Entry(c, m)
    {
      LinkEntry(c, k, e, m);
    }
    forall name: seq<Byte>, inum: nat
      ensures Binds(c', name, inum) <==> if name == Name(e) then inum == Inum(e) && inum != 0 else Binds(c, name, inum)
    {
      LinkBinds(c, c', k, e, name, inum);
    }
    LinkUnique(c, c', k, e);
  }

  lemma LinkBinds(c: seq<Byte>, c': seq<Byte>, k: nat, e: seq<Byte>, name: seq<Byte>, inum: nat)
    requires |e| == ENTRY && |c| <= |c'| && ENTRY * (k + 1) <= |c'| && Entry(c', k) == e
    requires forall m: nat | ENTRY * (m + 1) <= |c'| && m != k :: ENTRY * (m + 1) <= |c| && Entry(c', m) == Entry(c, m)
    requires ENTRY * (k + 1) <= |c| ==> Inum(Entry(c, k)) == 0
    requires !Bound(c, Name(e))
    ensures Binds(c', name, inum) <==> if name == Name(e) then inum == Inum(e) && inum != 0 else Binds(c, name, inum)
  {
    hide Inum, Name, Entry;
    if Binds(c', name, inum) {
      var m: nat :| ENTRY * (m + 1) <= |c'| && Live(c', m, name) && Inum(Entry(c', m)) == inum;
      if m != k {
        assert Live(c, m, name);
      }
    }
    if name == Name(e) && inum == Inum(e) && inum != 0 {
      assert Live(c', k, name);
    }
    if name != Name(e) && Binds(c, name, inum) {
      var m: nat :| ENTRY * (m + 1) <= |c| && Live(c, m, name) && Inum(Entry(c, m)) == inum;
      assert Live(c', m, name);
    }
  }

  lemma LinkUnique(c: seq<Byte>, c': seq<Byte>, k: nat, e: seq<Byte>)
    requires Unique(c) && |e| == ENTRY && ENTRY * (k + 1) <= |c'| && Entry(c', k) == e
    requires forall m: nat | ENTRY * (m + 1) <= |c'| && m != k :: ENTRY * (m + 1) <= |c| && Entry(c', m) == Entry(c, m)
    requires !Bound(c, Name(e))
    ensures Unique(c')
  {
    hide Inum, Name, Entry;
    forall j: nat, m: nat, name: seq<Byte> |
      ENTRY * (j + 1) <= |c'| && ENTRY * (m + 1) <= |c'| && Live(c', j, name) && Live(c', m, name)
      ensures j == m
    {
      if j != k { assert Live(c, j, name); }
      if m != k { assert Live(c, m, name); }
    }
  }

  // ----- dirlookup and dirlink -----

  /** Result of dirlink: 0, -1, or one of its panics. */
  datatype Linked = Ok | Exists | LinkPanic

  ghost predicate DirReady(fs: FileSys, dp: nat)
    reads fs
  {
    fs.Valid() && dp < |fs.inodes| && Shaped(fs.inodes[dp]) && fs.NoHoles(dp) && fs.inodes[dp].meta0 % 0x1_0000 == T_DIR
      && IsDir(fs.File(dp))
  }

  /** Read entry k; the directory is as it was. */
  method ReadEntry(fs: FileSys, dp: nat, k: nat) returns (e: seq<Byte>)
    requires DirReady(fs, dp) && ENTRY * (k + 1) <= |fs.File(dp)|
    modifies fs
    ensures DirReady(fs, dp) && fs.File(dp) == old(fs.File(dp)) && fs.blk == old(fs.blk) && fs.inodes == old(fs.inodes)
    ensures |e| == ENTRY && e == Entry(fs.File(dp), k)
  {
    hide Owns, Filled, Content, Grown;
    var r;
    r, e := fs.Readi(dp, ENTRY * k, ENTRY);
  }

  /** dirlookup: the offset and inode number of the entry for a name, if there is one. */
  method Dirlookup(fs: FileSys, dp: nat, name: seq<Byte>) returns (r: Option<(nat, nat)>)
    requires DirReady(fs, dp)
    modifies fs
    ensures DirReady(fs, dp) && fs.File(dp) == old(fs.File(dp)) && fs.blk == old(fs.blk) && fs.inodes == old(fs.inodes)
    ensures r.Some? <==> Bound(fs.File(dp), NameKey(name))
    ensures r.Some? ==> var (k, inum) := r.value;
              && ENTRY * (k + 1) <= |fs.File(dp)| && Live(fs.File(dp), k, NameKey(name))
                && inum == Inum(Entry(fs.File(dp), k))
              && Binds(fs.File(dp), NameKey(name), inum)
  {
    hide Owns, Filled, Content, Inum, Entry;
    ghost var c := fs.File(dp);
    var k := 0;
    while ENTRY * k < fs.inodes[dp].size
      invariant DirReady(fs, dp) && dp < |fs.inodes| && fs.inodes[dp].size == |c| && IsDir(c)
      invariant fs.File(dp) == c && fs.blk == old(fs.blk) && fs.inodes == old(fs.inodes)
      invariant forall m: nat | m < k && ENTRY * (m + 1) <= |c| :: !Live(c, m, NameKey(name))
    {
      var e := ReadEntry(fs, dp, k);
      if Inum(e) != 0 {
        var d := Strncmp(name, e[2..], DIRSIZ);
        if d == 0 {
          assert Live(c, k, NameKey(name));
          return Some((k, Inum(e)));
        }
      }
      k := k + 1;
    }
    return None;
  }

  /** dirlink's second loop: the first free entry, or the end. */
  method FindFree(fs: FileSys, dp: nat) returns (k: nat)
    requires DirReady(fs, dp)
    modifies fs
    ensures DirReady(fs, dp) && fs.File(dp) == old(fs.File(dp)) && fs.blk == old(fs.blk) && fs.inodes == old(fs.inodes)
    ensures ENTRY * k <= |fs.File(dp)|
    ensures ENTRY * (k + 1) <= |fs.File(dp)| ==> Inum(Entry(fs.File(dp), k)) == 0
    ensures forall m: nat | m < k && ENTRY * (m + 1) <= |fs.File(dp)| :: Inum(Entry(fs.File(dp), m)) != 0
  {
    hide Owns, Filled, Content, Inum, Entry;
    ghost var c := fs.File(dp);
    k := 0;
    while ENTRY * k < fs.inodes[dp].size
      invariant DirReady(fs, dp) && dp < |fs.inodes| && fs.inodes[dp].size == |c| && IsDir(c) && ENTRY * k <= |c|
      invariant fs.File(dp) == c && fs.blk == old(fs.blk) && fs.inodes == old(fs.inodes)
      invariant forall m: nat | m < k && ENTRY * (m + 1) <= |c| :: Inum(Entry(c, m)) != 0
    {
      var e := ReadEntry(fs, dp, k);
      if Inum(e) == 0 {
        break;
      }
      k := k + 1;
    }
  }

  /** dirlink: bind a new name. The number is kept modulo 2^16, and 0 there means a free entry, so
      the name ends up bound to inum exactly when 0 < inum < 2^16. Other names and other files are
      unaffected, and no name comes to occur twice. */
  method Dirlink(fs: FileSys, dp: nat, name: seq<Byte>, inum: Word) returns (r: Linked)
    requires DirReady(fs, dp) && Unique(fs.File(dp))
    modifies fs
    ensures r.Exists? <==> Bound(old(fs.File(dp)), NameKey(name))
    ensures r.Exists? ==> fs.blk == old(fs.blk) && fs.inodes == old(fs.inodes)
    ensures r.LinkPanic? ==> |old(fs.File(dp))| == MAXBYTES || (fs.Valid() && Full(fs.sb, fs.blk))
    ensures r.Ok? ==>
              && DirReady(fs, dp) && Unique(fs.File(dp))
              && (forall x: seq<Byte>, i: nat ::
                    Binds(fs.File(dp), x, i) <==>
                      if x == NameKey(name) then i == inum % 0x1_0000 && i != 0 else Binds(old(fs.File(dp)), x, i))
              && (Binds(fs.File(dp), NameKey(name), inum) <==> 0 < inum < 0x1_0000)
              && |fs.inodes| == |old(fs.inodes)|
              && forall j: nat | j < |fs.inodes| && j != dp ::
                fs.inodes[j] == old(fs.inodes)[j] && fs.File(j) == old(fs.File(j))
  {
    hide Full, Owns, Filled, Content, Entry, Written, Unique, Binds, Bound;
    ghost var c := fs.File(dp);
    var found := Dirlookup(fs, dp, name);
    if found.Some? {
      return Exists;
    }
    var k := FindFree(fs, dp);
    var de := Strncpy(name, DIRSIZ);
    var e := NewEntry(de, inum);
    LinkMeaning(c, k, e);
    var w := WriteEntry(fs, dp, k, e);
    if !w {
      return LinkPanic;
    }
    return Ok;
  }

  method WriteEntry(fs: FileSys, dp: nat, k: nat, e: seq<Byte>) returns (ok: bool)
    requires DirReady(fs, dp) && ENTRY * k <= |fs.File(dp)| && |e| == ENTRY
    modifies fs
    ensures !ok ==> ENTRY * (k + 1) > MAXBYTES || (fs.Valid() && Full(fs.sb, fs.blk))
    ensures ok ==>
              && DirReady(fs, dp) && fs.File(dp) == Written(old(fs.File(dp)), ENTRY * k, e)
              && |fs.inodes| == |old(fs.inodes)|
              && forall j: nat | j < |fs.inodes| && j != dp ::
                fs.inodes[j] == old(fs.inodes)[j] && fs.File(j) == old(fs.File(j))
  {
    hide Full, Filled, Content, Written;
    var w := fs.Writei(dp, ENTRY * k, e);
    ok := w.Count?;
  }
}
