/**
 Directory entries: lookup by name, by index, and the strings they are compared and copied with
 (student-distrib/filesystem.c, student-distrib/lib.c).
 */
module Directory {
  import opened Bytes
  import opened FileSystem

  datatype Option<+T> = None | Some(value: T)

  /** A name field holds a string that is NUL-terminated or fills all 32 bytes. */
  function NameOf(d: Dentry): seq<byte> {
    d.filename[..IndexOf(d.filename, NUL)]
  }

  /** A name as `strncpy` leaves it: cut or padded with NULs to 32 bytes. */
  function Padded(name: seq<byte>): (r: seq<byte>)
    ensures |r| == NAME_SIZE
  {
    seq(NAME_SIZE, i requires 0 <= i < NAME_SIZE => if i < |name| then name[i] else NUL)
  }

  lemma {:induction false} PaddedName(name: seq<byte>)
    requires NulFree(name) && |name| <= NAME_SIZE
    ensures IndexOf(Padded(name), NUL) == |name| && Padded(name)[..|name|] == name
    ensures forall i :: |name| <= i < 32 ==> Padded(name)[i] == NUL
  {
    assert Padded(name)[..|name|] == name;
    IndexOfIs(Padded(name), NUL, |name|);
  }

  /** The first of entries `from..dirCount` called `fname`, or `dirCount`. */
  function Lookup(img: Image, fname: seq<byte>, from: nat := 0): (k: nat)
    requires Layout(img) && from <= img.dirCount
    ensures from <= k <= img.dirCount
    ensures k < img.dirCount ==> NameOf(img.entries[k]) == fname
    ensures forall j :: from <= j < k ==> NameOf(img.entries[j]) != fname
    decreases img.dirCount - from
  {
    if from == img.dirCount || NameOf(img.entries[from]) == fname then from
    else Lookup(img, fname, from + 1)
  }

  /** The length loops of lookup and listing: up to the NUL or to 32. */
  method BoundedLength(s: seq<byte>) returns (len: nat)
    requires |s| == NAME_SIZE
    ensures len == IndexOf(s, NUL)
  {
    len := 0;
    while len < NAME_SIZE && s[len] != NUL
      invariant len <= NAME_SIZE && Free(s[..len], NUL)
    {
      len := len + 1;
    }
    IndexOfIs(s, NUL, len);
  }

  /** A byte read through `int8_t`. */
  function SignedChar(b: byte): (r: int)
    ensures -128 <= r < 128 && (r - b) % 256 == 0
  {
    if b < 128 then b else b - 256
  }

  /** The first `n` bytes of a C string in a buffer, or all of it. */
  function Head(s: seq<byte>, n: nat): seq<byte> {
    s[..Min(n, IndexOf(s, NUL))]
  }

  /** The first `i` bytes agree, and none of them is a NUL. */
  ghost predicate Agree(s1: seq<byte>, s2: seq<byte>, i: nat) {
    i <= |s1| && i <= |s2| && forall j :: 0 <= j < i ==> s1[j] == s2[j] != NUL
  }

  /** `strncmp` on two buffers that hold `n` bytes or a NUL. */
  method StrNCmp(s1: seq<byte>, s2: seq<byte>, n: nat) returns (r: int)
    requires n <= |s1| || NUL in s1
    requires n <= |s2| || NUL in s2
    ensures r == 0 <==> Head(s1, n) == Head(s2, n)
    ensures forall i :: 0 <= i < n && Agree(s1, s2, i) && i < |s1| && i < |s2| && s1[i] != s2[i] ==>
      r == SignedChar(s1[i]) - SignedChar(s2[i])
  {
    var i := 0;
    while i < n
      invariant 0 <= i <= n && i <= |s1| && i <= |s2|
      invariant Agree(s1, s2, i)
    {
      HeadReaches(s1, n, i);
      HeadReaches(s2, n, i);
      if s1[i] != s2[i] || s1[i] == NUL {
        if s1[i] != s2[i] {
          HeadsDiffer(s1, s2, n, i);
        }
        return SignedChar(s1[i]) - SignedChar(s2[i]);
      }
      i := i + 1;
    }
    HeadsAgree(s1, s2, n);
    return 0;
  }

  lemma {:induction false} HeadsAgree(s1: seq<byte>, s2: seq<byte>, n: nat)
    requires n <= |s1| && n <= |s2| && Agree(s1, s2, n)
    ensures Head(s1, n) == Head(s2, n)
  {
    assert IndexOf(s1, NUL) >= n && IndexOf(s2, NUL) >= n;
    assert s1[..n] == s2[..n];
  }

  lemma {:induction false} HeadReaches(s: seq<byte>, n: nat, i: nat)
    requires i < n && (n <= |s| || NUL in s) && i <= |s| && forall j :: 0 <= j < i ==> s[j] != NUL
    ensures i < |s| && i <= IndexOf(s, NUL)
    ensures s[i] == NUL ==> Head(s, n) == s[..i]
  {
    var k := IndexOf(s, NUL);
    if NUL in s {
      var m :| 0 <= m < |s| && s[m] == NUL;
    }
  }

  lemma {:induction false} HeadsDiffer(s1: seq<byte>, s2: seq<byte>, n: nat, i: nat)
    requires i < n && i < |s1| && i < |s2| && s1[i] != s2[i]
    requires i <= IndexOf(s1, NUL) && i <= IndexOf(s2, NUL)
    ensures Head(s1, n) != Head(s2, n)
  {
    if i < |Head(s1, n)| && i < |Head(s2, n)| {
      assert Head(s1, n)[i] != Head(s2, n)[i];
    }
  }

  /** `strncpy` of a 32-byte name field to `buf[base..base+32]`. */
  method StrNCpy(buf: array<byte>, base: nat, src: seq<byte>)
    requires |src| == NAME_SIZE && base + NAME_SIZE <= buf.Length
    modifies buf
    ensures buf[..] == Splice(old(buf[..]), base, Padded(src[..IndexOf(src, NUL)]))
  {
    var i := 0;
    while i < NAME_SIZE && src[i] != NUL
      invariant i <= NAME_SIZE && Free(src[..i], NUL)
      invariant forall j :: 0 <= j < buf.Length ==>
        buf[j] == if base <= j < base + i then src[j - base] else old(buf[j])
    {
      buf[base + i] := src[i];
      i := i + 1;
    }
    ghost var len := i;
    IndexOfIs(src, NUL, len);
    while i < NAME_SIZE
      invariant len <= i <= NAME_SIZE
      invariant forall j :: 0 <= j < buf.Length ==>
        buf[j] == if base <= j < base + i then (if j - base < len then src[j - base] else NUL) else old(buf[j])
    {
      buf[base + i] := NUL;
      i := i + 1;
    }
  }

  /** `read_dentry_by_name`: the first entry with that name, its name field copied out. */
  method ReadDentryByName(img: Image, fname: seq<byte>) returns (r: Option<Dentry>)
    requires Layout(img) && NulFree(fname)
    ensures r == EntryNamed(img, fname)
  {
    var i := 0;
    while i < img.dirCount
      invariant 0 <= i <= img.dirCount
      invariant Lookup(img, fname) == Lookup(img, fname, i)
    {
      var d := img.entries[i];
      var len := BoundedLength(d.filename);
      if |fname| == len {
        var c := StrNCmp(fname, d.filename, len);
        assert Head(fname, len) == fname;
        if c == 0 {
          return Some(CopyOut(d));
        }
      }
      i := i + 1;
    }
    return None;
  }

  /** A directory entry as lookup hands it over. */
  function CopyOut(d: Dentry): Dentry {
    d.(filename := Padded(NameOf(d)))
  }

  function EntryNamed(img: Image, fname: seq<byte>): Option<Dentry>
    requires Layout(img)
  {
    var k := Lookup(img, fname);
    if k < img.dirCount then Some(CopyOut(img.entries[k])) else None
  }

  ghost predicate DistinctNames(img: Image)
    requires Layout(img)
  {
    forall i, j :: 0 <= i < j < img.dirCount ==> NameOf(img.entries[i]) != NameOf(img.entries[j])
  }

  ghost predicate NoEmptyName(img: Image)
    requires Layout(img)
  {
    forall i :: 0 <= i < img.dirCount ==> NameOf(img.entries[i]) != []
  }

  /** How many entries a walk lists that stops at the first empty answer. */
  function Listed(img: Image, from: nat := 0): (k: nat)
    requires Layout(img) && from <= img.dirCount
    ensures from <= k <= img.dirCount
    ensures k < img.dirCount ==> NameOf(img.entries[k]) == []
    ensures forall j :: from <= j < k ==> NameOf(img.entries[j]) != []
    decreases img.dirCount - from
  {
    if from == img.dirCount || NameOf(img.entries[from]) == [] then from else Listed(img, from + 1)
  }

  /** Lookup succeeds exactly on the names that are present, and finds no later entry than any of that name. */
  lemma {:induction false} LookupFinds(img: Image, fname: seq<byte>)
    requires Layout(img)
    ensures EntryNamed(img, fname).None? <==> forall i :: 0 <= i < img.dirCount ==> NameOf(img.entries[i]) != fname
    ensures forall i :: 0 <= i < img.dirCount && NameOf(img.entries[i]) == fname ==> Lookup(img, fname) <= i
  {
    var k := Lookup(img, fname);
    assert k < img.dirCount ==> NameOf(img.entries[k]) == fname;
  }

  /** Looking an entry's own name up gives that entry back for every entry if and only if no name occurs twice. */
  lemma {:induction false} LookupInvertsListing(img: Image)
    requires Layout(img)
    ensures (forall i :: 0 <= i < img.dirCount ==> Lookup(img, NameOf(img.entries[i])) == i) <==> DistinctNames(img)
  {
    if forall i :: 0 <= i < img.dirCount ==> Lookup(img, NameOf(img.entries[i])) == i {
      forall i, j | 0 <= i < j < img.dirCount
        ensures NameOf(img.entries[i]) != NameOf(img.entries[j])
      {
        assert Lookup(img, NameOf(img.entries[j])) == j;
      }
    }
    if DistinctNames(img) {
      forall i | 0 <= i < img.dirCount
        ensures Lookup(img, NameOf(img.entries[i])) == i
      {
        LookupFinds(img, NameOf(img.entries[i]));
      }
    }
  }
}
