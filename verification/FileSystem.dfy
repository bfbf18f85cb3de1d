// The read-only file system (filesystem.c): a file is a list of data blocks, and
// reading has to behave as if it were one sequence of bytes.
module FileSystem {
  import opened Arith

  const BLOCK_SIZE := 4096
  const MAX_BLOCKS := 1023
  const NAME_SIZE := 32
  const NUM_MAX_FILES := 63
  const TWO32 := 0x1_0000_0000

  type u32 = n: int | 0 <= n < TWO32

  type Name = s: seq<byte> | |s| == NAME_SIZE witness seq(NAME_SIZE, _ => 0)

  datatype Dentry = Dentry(name: Name, fileType: int, inode: int)
  datatype Inode = Inode(length: int, blocks: seq<int>)

  // The image: boot block, inodes, data blocks.
  datatype Disk = Disk(dirCount: int, entries: seq<Dentry>, inodes: seq<Inode>, blocks: seq<seq<byte>>) {
    ghost predicate Valid() {
      && 0 <= dirCount <= NUM_MAX_FILES && |entries| == NUM_MAX_FILES
      && 1 <= |inodes| < 0x8000_0000
      && (forall i :: 0 <= i < dirCount ==> 0 <= entries[i].inode < |inodes|)
      && (forall i :: 0 <= i < |inodes| ==> ValidInode(inodes[i]))
      && (forall b :: 0 <= b < |blocks| ==> |blocks[b]| == BLOCK_SIZE)
    }

    ghost predicate ValidInode(n: Inode) {
      && |n.blocks| == MAX_BLOCKS && 0 <= n.length <= MAX_BLOCKS * BLOCK_SIZE
      && forall j :: 0 <= j < |n.blocks| && j * BLOCK_SIZE < n.length ==> 0 <= n.blocks[j] < |blocks|
    }

    // The first n data blocks of a file, end to end.
    ghost function Joined(nums: seq<int>, n: int): (s: seq<byte>)
      requires 0 <= n <= |nums|
    {
      if n == 0 then []
      else Joined(nums, n - 1) + (if 0 <= nums[n - 1] < |blocks| then blocks[nums[n - 1]] else [])
    }

    // A file as a sequence of bytes.
    ghost function Contents(inode: int): (s: seq<byte>)
      requires Valid() && 0 <= inode < |inodes|
      ensures |s| == inodes[inode].length
    {
      var n := inodes[inode];
      var k := (n.length + BLOCK_SIZE - 1) / BLOCK_SIZE;
      JoinedByte(n.blocks, k, n.length);
      Joined(n.blocks, k)[..n.length]
    }

    // Byte i of the joined blocks is byte i mod 4096 of block i / 4096.
    lemma {:induction false} JoinedByte(nums: seq<int>, n: int, length: int)
      requires 0 <= n <= |nums| && (n - 1) * BLOCK_SIZE < length
      requires forall j :: 0 <= j < |nums| && j * BLOCK_SIZE < length ==> 0 <= nums[j] < |blocks|
      requires forall b :: 0 <= b < |blocks| ==> |blocks[b]| == BLOCK_SIZE
      ensures |Joined(nums, n)| == n * BLOCK_SIZE
      ensures forall i :: 0 <= i < n * BLOCK_SIZE ==>
        0 <= nums[i / BLOCK_SIZE] < |blocks| && Joined(nums, n)[i] == blocks[nums[i / BLOCK_SIZE]][i % BLOCK_SIZE]
    {
      if n > 0 {
        JoinedByte(nums, n - 1, length);
        assert 0 <= nums[n - 1] < |blocks|;
      }
    }

    lemma ContentsByte(inode: int, i: int)
      requires Valid() && 0 <= inode < |inodes| && 0 <= i < inodes[inode].length
      ensures var nums := inodes[inode].blocks;
        i / BLOCK_SIZE < |nums| && 0 <= nums[i / BLOCK_SIZE] < |blocks| && |blocks[nums[i / BLOCK_SIZE]]| == BLOCK_SIZE
        && Contents(inode)[i] == blocks[nums[i / BLOCK_SIZE]][i % BLOCK_SIZE]
    {
      var n := inodes[inode];
      var k := (n.length + BLOCK_SIZE - 1) / BLOCK_SIZE;
      JoinedByte(n.blocks, k, n.length);
    }
  }

  // The number of bytes asked for that the file has.
  function Available(fileLength: int, offset: int, length: int): int {
    if offset >= fileLength then 0 else Min(length, fileLength - offset)
  }

  // The number of bytes read_data reads: the end of the stretch is computed in 32
  // bits.
  function ReadCount(fileLength: int, offset: u32, length: u32): int {
    var end := (offset + length) % TWO32;
    if offset >= fileLength then 0
    else if end <= offset then 0
    else if end <= fileLength then end - offset
    else fileLength - offset
  }

  // read_data reads what is available exactly when the end of the stretch does not
  // wrap around, or nothing is available anyway.
  lemma ReadCountIff(fileLength: int, offset: u32, length: u32)
    requires 0 <= fileLength < TWO32
    ensures ReadCount(fileLength, offset, length) == Available(fileLength, offset, length)
      <==> offset >= fileLength || offset + length < TWO32
  {
    if offset + length >= TWO32 {
      assert (offset + length) % TWO32 == offset + length - TWO32;
    }
  }

  // A request that wraps, of a file that has bytes to give.
  lemma ReadCountWraps()
    ensures ReadCount(10, 1, 0xFFFF_FFFF) == 0 && Available(10, 1, 0xFFFF_FFFF) == 9
  {}

  // read_data
  method ReadData(disk: Disk, inode: u32, offset: u32, buf: array<byte>, length: u32) returns (r: int)
    requires disk.Valid() && length <= buf.Length
    modifies buf
    ensures r == if inode >= |disk.inodes| then -1 else ReadCount(disk.inodes[inode].length, offset, length)
    ensures 0 <= r ==>
      r <= length
        && (r > 0 ==> offset + r <= |disk.Contents(inode)| && buf[..r] == disk.Contents(inode)[offset..offset + r])
    ensures forall i :: 0 <= i < buf.Length && r <= i ==> buf[i] == old(buf[i])
  {
    if inode > |disk.inodes| - 1 {
      return -1;
    }
    var node := disk.inodes[inode];
    if offset >= node.length {
      return 0;
    }
    var end := (offset + length) % TWO32;
    var current := offset;
    var i := 0;
    ghost var file := disk.Contents(inode);
    while current < end
      invariant offset <= current <= node.length && i == current - offset
      invariant current <= end || current == offset
      invariant i <= length
      invariant buf[..i] == file[offset..current]
      invariant forall j :: i <= j < buf.Length ==> buf[j] == old(buf[j])
      decreases end - current
    {
      if current == node.length {
        return current - offset;
      }
      disk.ContentsByte(inode, current);
      assert end <= offset + length;
      var block := node.blocks[current / BLOCK_SIZE];
      buf[i] := disk.blocks[block][current % BLOCK_SIZE];
      assert buf[..i + 1] == buf[..i] + [buf[i]];
      assert file[offset..current + 1] == file[offset..current] + [file[current]];
      i := i + 1;
      current := current + 1;
    }
    return i;
  }

  // ----- names -----

  // Character i of a C string.
  function CharAt(s: seq<byte>, i: int): byte
    requires 0 <= i
  {
    if i < |s| then s[i] else 0
  }

  // What a name says: up to the first zero, and at most 32 characters.
  function Letters(s: seq<byte>, i: int): seq<byte>
    requires 0 <= i <= NAME_SIZE
    decreases NAME_SIZE - i
  {
    if i == NAME_SIZE || CharAt(s, i) == 0 then [] else [CharAt(s, i)] + Letters(s, i + 1)
  }

  predicate SameName(a: seq<byte>, b: seq<byte>) { Letters(a, 0) == Letters(b, 0) }

  // The character of two names that ends the comparison: both end, or 32 have been
  // compared.
  ghost predicate SameUpTo(a: seq<byte>, b: seq<byte>, n: int) {
    && 0 <= n <= NAME_SIZE && (n < NAME_SIZE ==> CharAt(a, n) == 0 && CharAt(b, n) == 0)
    && forall i :: 0 <= i < n ==> CharAt(a, i) == CharAt(b, i) != 0
  }

  // Two names are the same exactly when they agree character by character up to a
  // zero in both, or for 32 characters.
  lemma SameNameIff(a: seq<byte>, b: seq<byte>)
    ensures SameName(a, b) <==> exists n :: SameUpTo(a, b, n)
  {
    if SameName(a, b) {
      SameLetters(a, b, 0);
      assert SameUpTo(a, b, |Letters(a, 0)|);
    }
    if n :| SameUpTo(a, b, n) {
      SameFrom(a, b, n, 0);
    }
  }

  lemma {:induction false} SameLetters(a: seq<byte>, b: seq<byte>, i: int)
    requires 0 <= i <= NAME_SIZE && Letters(a, i) == Letters(b, i)
    ensures var n := i + |Letters(a, i)|;
      && n <= NAME_SIZE && (n < NAME_SIZE ==> CharAt(a, n) == 0 && CharAt(b, n) == 0)
      && forall j :: i <= j < n ==> CharAt(a, j) == CharAt(b, j) != 0
    decreases NAME_SIZE - i
  {
    if i < NAME_SIZE && CharAt(a, i) != 0 {
      assert CharAt(b, i) != 0 && Letters(b, i)[0] == CharAt(b, i) && Letters(a, i)[0] == CharAt(a, i);
      assert Letters(a, i)[1..] == Letters(a, i + 1) && Letters(b, i)[1..] == Letters(b, i + 1);
      SameLetters(a, b, i + 1);
    }
  }

  lemma {:induction false} SameFrom(a: seq<byte>, b: seq<byte>, n: int, i: int)
    requires SameUpTo(a, b, n) && 0 <= i <= n
    ensures Letters(a, i) == Letters(b, i)
    decreases n - i
  {
    if i < n { SameFrom(a, b, n, i + 1); }
  }

  // strncmp(a, b, 32), as a test for zero.
  method StrncmpIsZero(a: seq<byte>, b: seq<byte>) returns (zero: bool)
    ensures zero <==> SameName(a, b)
  {
    var i := 0;
    while i < NAME_SIZE
      invariant 0 <= i <= NAME_SIZE
      invariant SameName(a, b) <==> Letters(a, i) == Letters(b, i)
    {
      if CharAt(a, i) != CharAt(b, i) || CharAt(a, i) == 0 {
        FirstDifference(a, b, i);
        return CharAt(a, i) == CharAt(b, i);
      }
      assert Letters(a, i) == [CharAt(a, i)] + Letters(a, i + 1) && Letters(b, i) == [CharAt(b, i)] + Letters(b, i + 1);
      assert Letters(a, i)[1..] == Letters(a, i + 1) && Letters(b, i)[1..] == Letters(b, i + 1);
      i := i + 1;
    }
    return true;
  }

  lemma FirstDifference(a: seq<byte>, b: seq<byte>, i: int)
    requires 0 <= i < NAME_SIZE && (CharAt(a, i) != CharAt(b, i) || CharAt(a, i) == 0)
    ensures Letters(a, i) == Letters(b, i) <==> CharAt(a, i) == CharAt(b, i)
  {
    if CharAt(a, i) != CharAt(b, i) {
      if CharAt(a, i) != 0 { assert Letters(a, i)[0] == CharAt(a, i); }
      if CharAt(b, i) != 0 { assert Letters(b, i)[0] == CharAt(b, i); }
    }
  }

  // A name as strncpy stores it: up to the first zero, and zeros after it.
  function Padded(name: Name): (s: seq<byte>)
    ensures |s| == NAME_SIZE
  {
    LettersAre(name, 0);
    Letters(name, 0) + seq(NAME_SIZE - |Letters(name, 0)|, _ => 0)
  }

  // The letters of a name are those before its first zero.
  lemma {:induction false} LettersAre(name: Name, i: int)
    requires 0 <= i <= NAME_SIZE
    ensures var n := |Letters(name, i)|;
      && i + n <= NAME_SIZE && Letters(name, i) == name[i..i + n] && (i + n < NAME_SIZE ==> name[i + n] == 0)
      && forall j :: i <= j < i + n ==> name[j] != 0
    decreases NAME_SIZE - i
  {
    if i < NAME_SIZE && name[i] != 0 { LettersAre(name, i + 1); }
  }

  // strncpy(dest, name, 32)
  method Strncpy(dest: array<byte>, name: Name)
    requires NAME_SIZE <= dest.Length
    modifies dest
    ensures dest[..NAME_SIZE] == Padded(name)
    ensures forall i :: NAME_SIZE <= i < dest.Length ==> dest[i] == old(dest[i])
  {
    LettersAre(name, 0);
    hide Letters;
    var i := 0;
    while i < NAME_SIZE && name[i] != 0
      invariant 0 <= i <= |Letters(name, 0)| && dest[..i] == name[..i]
      invariant forall j :: NAME_SIZE <= j < dest.Length ==> dest[j] == old(dest[j])
    {
      dest[i] := name[i];
      i := i + 1;
    }
    ghost var n := i;
    assert n == |Letters(name, 0)|;
    while i < NAME_SIZE
      invariant n <= i <= NAME_SIZE && dest[..n] == name[..n] && forall j :: n <= j < i ==> dest[j] == 0
      invariant forall j :: NAME_SIZE <= j < dest.Length ==> dest[j] == old(dest[j])
    {
      dest[i] := 0;
      i := i + 1;
    }
    assert dest[..NAME_SIZE] == dest[..n] + dest[n..NAME_SIZE];
    assert dest[n..NAME_SIZE] == seq(NAME_SIZE - n, _ => 0);
  }

  // strlen, capped at 32 as directory_read does with its result.
  method CappedStrlen(s: array<byte>, ghost name: Name) returns (n: int)
    requires NAME_SIZE <= s.Length && s[..NAME_SIZE] == Padded(name)
    ensures n == |Letters(name, 0)|
  {
    LettersAre(name, 0);
    hide Letters;
    n := 0;
    while n < NAME_SIZE && s[n] != 0
      invariant 0 <= n <= |Letters(name, 0)|
    {
      assert s[n] == s[..NAME_SIZE][n];
      n := n + 1;
    }
    assert n < NAME_SIZE ==> s[n] == s[..NAME_SIZE][n];
  }

  // The directory entry that a name denotes: the first that carries it.
  ghost predicate Denotes(disk: Disk, name: seq<byte>, i: int)
    requires disk.Valid()
  {
    0 <= i < disk.dirCount && SameName(name, disk.entries[i].name)
    && forall j :: 0 <= j < i ==> !SameName(name, disk.entries[j].name)
  }

  // read_dentry_by_name: 0 and the entry, or -1.
  method ReadDentryByName(disk: Disk, name: seq<byte>) returns (r: int, entry: Dentry)
    requires disk.Valid()
    ensures r == 0 || r == -1
    ensures r == 0 ==> exists i :: Denotes(disk, name, i) && entry == disk.entries[i]
    ensures r == -1 ==> forall i :: 0 <= i < disk.dirCount ==> !SameName(name, disk.entries[i].name)
  {
    hide SameName;
    entry := disk.entries[0];
    var i := 0;
    while i < disk.dirCount
      invariant 0 <= i <= disk.dirCount
      invariant forall j :: 0 <= j < i ==> !SameName(name, disk.entries[j].name)
    {
      var same := StrncmpIsZero(name, disk.entries[i].name);
      if same {
        entry := disk.entries[i];
        assert Denotes(disk, name, i);
        return 0, entry;
      }
      i := i + 1;
    }
    return -1, entry;
  }

  // ----- a file read in pieces -----

  // One read of n bytes at position pos.
  function Slice(file: seq<byte>, pos: int, n: int): seq<byte>
    requires 0 <= pos && 0 <= n
  {
    if pos >= |file| then [] else file[pos..pos + Min(n, |file| - pos)]
  }

  // Sizes that file_read accepts.
  predicate Accepted(sizes: seq<int>) { forall i :: 0 <= i < |sizes| ==> 0 < sizes[i] < 0x8000_0000 }

  // What a sequence of reads returns, one after the other.
  function Reads(file: seq<byte>, pos: int, sizes: seq<int>): seq<byte>
    requires 0 <= pos && Accepted(sizes)
    decreases |sizes|
  {
    if sizes == [] then []
    else
      var s := Slice(file, pos, sizes[0]);
      s + Reads(file, pos + |s|, sizes[1..])
  }

  function Total(sizes: seq<int>): int {
    if sizes == [] then 0 else sizes[0] + Total(sizes[1..])
  }

  lemma Stretch(file: seq<byte>, a: int, b: int, c: int)
    requires 0 <= a <= b <= c <= |file|
    ensures file[a..b] + file[b..c] == file[a..c]
  {}

  // Where the reads leave the position.
  function EndAt(file: seq<byte>, pos: int, sizes: seq<int>): int {
    pos + Min(Total(sizes), |file| - pos)
  }

  lemma {:induction false} TotalPositive(sizes: seq<int>)
    requires Accepted(sizes)
    ensures |sizes| <= Total(sizes)
  {
    if sizes != [] { TotalPositive(sizes[1..]); }
  }

  lemma LaterSizes(sizes: seq<int>)
    requires Accepted(sizes) && sizes != []
    ensures 0 < sizes[0] < 0x8000_0000 && Accepted(sizes[1..]) && Total(sizes) == sizes[0] + Total(sizes[1..])
  {}

  // The stretch of a piece, and that of the pieces after it.
  lemma PieceAndLater(file: seq<byte>, pos: int, sizes: seq<int>, piece: seq<byte>, later: seq<byte>)
    requires 0 <= pos <= |file| && sizes != [] && Accepted(sizes) && piece == Slice(file, pos, sizes[0])
    requires var mid := pos + |piece|;
      mid <= EndAt(file, mid, sizes[1..]) <= |file| && later == file[mid..EndAt(file, mid, sizes[1..])]
    ensures pos <= EndAt(file, pos, sizes) <= |file| && piece + later == file[pos..EndAt(file, pos, sizes)]
  {
    LaterSizes(sizes);
    TotalPositive(sizes[1..]);
    hide Accepted, Total;
    var mid := pos + Min(sizes[0], |file| - pos);
    assert piece == file[pos..mid];
    hide Slice;
    assert EndAt(file, mid, sizes[1..]) == EndAt(file, pos, sizes);
    Stretch(file, pos, mid, EndAt(file, pos, sizes));
  }

  // Consecutive reads return consecutive stretches: together the next bytes of the
  // file, as many as were asked for, or all that were left.
  lemma {:induction false} ReadsAreConsecutive(file: seq<byte>, pos: int, sizes: seq<int>)
    requires 0 <= pos <= |file| && Accepted(sizes)
    ensures pos <= EndAt(file, pos, sizes) <= |file|
    ensures Reads(file, pos, sizes) == file[pos..EndAt(file, pos, sizes)]
    decreases |sizes|
  {
    hide Accepted, Reads, EndAt, Slice, Total;
    if sizes == [] {
      NoReads(file, pos);
    } else {
      FirstRead(file, pos, sizes);
      var piece := Slice(file, pos, sizes[0]);
      ReadsAreConsecutive(file, pos + |piece|, sizes[1..]);
      PieceAndLater(file, pos, sizes, piece, Reads(file, pos + |piece|, sizes[1..]));
    }
  }

  lemma NoReads(file: seq<byte>, pos: int)
    requires 0 <= pos <= |file|
    ensures EndAt(file, pos, []) == pos && Accepted([]) && Reads(file, pos, []) == file[pos..pos]
  {}

  lemma FirstRead(file: seq<byte>, pos: int, sizes: seq<int>)
    requires 0 <= pos <= |file| && sizes != [] && Accepted(sizes)
    ensures 0 < sizes[0] && Accepted(sizes[1..])
    ensures var piece := Slice(file, pos, sizes[0]);
      pos + |piece| <= |file| && Reads(file, pos, sizes) == piece + Reads(file, pos + |piece|, sizes[1..])
  {
    LaterSizes(sizes);
    hide Accepted, Total;
  }

  // ----- a directory read entry by entry -----

  // The name of entry `index`, which may be one behind the directory; `beyond` is
  // what memory holds where entry 63 would be.
  function EntryName(disk: Disk, beyond: Name, index: int): Name
    requires 0 <= index
  {
    if index < |disk.entries| then disk.entries[index].name else beyond
  }

  // The names that n reads give, from a position on.  The position is cut to a byte,
  // and the test admits one entry past the last.
  function Listing(disk: Disk, beyond: Name, pos: int, n: nat): seq<Name>
    decreases n
  {
    if n == 0 || pos % 256 > disk.dirCount then []
    else [EntryName(disk, beyond, pos % 256)] + Listing(disk, beyond, pos + 1, n - 1)
  }

  lemma {:induction false} ListingIs(disk: Disk, beyond: Name, pos: int, n: nat)
    requires disk.Valid() && 0 <= pos <= disk.dirCount + 1
    ensures |Listing(disk, beyond, pos, n)| == Min(n, disk.dirCount + 1 - pos)
    ensures forall i :: 0 <= i < |Listing(disk, beyond, pos, n)| ==>
      Listing(disk, beyond, pos, n)[i] == EntryName(disk, beyond, pos + i)
    decreases n
  {
    hide EntryName;
    if n > 0 && pos <= disk.dirCount {
      ListingIs(disk, beyond, pos + 1, n - 1);
    }
  }

  // From the start, n reads list the first entries of the directory and nothing else
  // exactly when n is at most the number of entries: one more read gives one name
  // too many.
  lemma ListingIff(disk: Disk, beyond: Name, n: nat)
    requires disk.Valid()
    ensures var names := Listing(disk, beyond, 0, n);
      (|names| <= disk.dirCount && forall i :: 0 <= i < |names| ==> names[i] == disk.entries[i].name)
      <==> n <= disk.dirCount
  {
    ListingIs(disk, beyond, 0, n);
  }
}
