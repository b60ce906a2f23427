/** The block manager and the inode manager as they update the disk, the table of used blocks and the inodes. */
module InodeManager {
  import opened Blocks
  import opened InodeModel

  const T_DIR: nat := 1

  /** The size of the buffer a file is read into. */
  const READ_BUFFER: nat := 200050

  class BlockManager {
    const blocks: array<Block>
    var usingBlocks: set<nat>

    constructor ()
      ensures fresh(blocks) && Valid() && usingBlocks == {}
    {
      blocks := new Block[BLOCK_NUM](_ => seq(BLOCK_SIZE, _ => 0));
      usingBlocks := {};
      new;
      forall b: nat | b < BLOCK_NUM ensures !Marked(blocks[..], b) {
        ZeroBits(b % BPB % 8);
      }
    }

    /** The bitmap agrees with the table. */
    ghost predicate Valid()
      reads this, blocks
    {
      BitmapOk(blocks[..], usingBlocks)
    }

    method ReadBlock(id: nat) returns (buf: Block)
      requires blocks.Length == BLOCK_NUM && id < BLOCK_NUM
      ensures buf == blocks[id]
    {
      buf := blocks[id];
    }

    method WriteBlock(id: nat, buf: Block)
      requires blocks.Length == BLOCK_NUM && id < BLOCK_NUM
      modifies blocks
      ensures blocks[..] == old(blocks[..])[id := buf]
    {
      blocks[id] := buf;
    }

    /** The first free data block, or 0 if there is none. */
    method AllocBlock() returns (id: nat)
      requires Valid()
      modifies this`usingBlocks, blocks
      ensures Valid() && SameData(old(blocks[..]), blocks[..], {})
      ensures id == 0 <==> FreeData(old(usingBlocks)) == {}
      ensures id == 0 ==> usingBlocks == old(usingBlocks)
      ensures id != 0 ==> id in FreeData(old(usingBlocks)) && usingBlocks == old(usingBlocks) + {id}
      ensures id != 0 ==> forall b | START_OF_DATA_BLOCK <= b < id :: b in old(usingBlocks)
    {
      var i := START_OF_DATA_BLOCK;
      while i < BLOCK_NUM
        invariant START_OF_DATA_BLOCK <= i <= BLOCK_NUM
        invariant forall b | START_OF_DATA_BLOCK <= b < i :: b in usingBlocks
        invariant usingBlocks == old(usingBlocks) && blocks[..] == old(blocks[..])
      {
        if i !in usingBlocks {
          usingBlocks := usingBlocks + {i};
          var buf := ReadBlock(BBlock(i));
          SetKeepsBitmap(blocks[..], old(usingBlocks), i);
          WriteBlock(BBlock(i), Set(buf, i % BPB));
          assert i in FreeData(old(usingBlocks));
          return i;
        }
        i := i + 1;
      }
      return 0;
    }

    /** Forget a block and flip its bit, whatever it was. */
    method FreeBlock(id: nat)
      requires blocks.Length == BLOCK_NUM && id < BLOCK_NUM
      modifies this`usingBlocks, blocks
      ensures usingBlocks == old(usingBlocks) - {id}
      ensures var before := old(blocks[..]); blocks[..] == before[BBlock(id) := Toggle(before[BBlock(id)], id % BPB)]
      ensures SameData(old(blocks[..]), blocks[..], {})
      ensures old(Valid()) ==> (Valid() <==> (IsData(id) ==> id in old(usingBlocks)))
    {
      usingBlocks := usingBlocks - {id};
      var buf := ReadBlock(BBlock(id));
      if BitmapOk(blocks[..], old(usingBlocks)) {
        ToggleKeepsBitmap(blocks[..], old(usingBlocks), id);
      }
      WriteBlock(BBlock(id), Toggle(buf, id % BPB));
    }
  }

  lemma {:induction false} ZeroBits(k: nat)
    ensures !BitOf(0, k)
  {
    if k > 0 {
      ZeroBits(k - 1);
    }
  }

  class FileSystem {
    const bm: BlockManager
    const inodes: array<Inode>
    const inodeMap: array<bool>
    /** Indirect blocks of overwritten or removed files, which are never freed. */
    ghost var leaked: set<nat>

    ghost predicate Shape()
      reads this, bm, bm.blocks, inodes, inodeMap
    {
      && bm.Valid() && inodes.Length == INODE_NUM && inodeMap.Length == INODE_NUM
      && forall i | 0 <= i < INODE_NUM :: inodeMap[i] <==> inodes[i].kind != 0
    }

    ghost predicate Valid()
      reads this, bm, bm.blocks, inodes, inodeMap
    {
      && Shape()
      && FilesOk(bm.blocks[..], bm.usingBlocks, inodes[..], leaked)
    }

    ghost function Contents(): map<nat, seq<byte>>
      reads bm, bm.blocks, inodes
    {
      Files(bm.blocks[..], inodes[..])
    }

    constructor ()
      ensures Valid() && leaked == {}
      ensures Contents() == map[1 := []] && inodes[1].kind == T_DIR
    {
      bm := new BlockManager();
      inodes := new Inode[INODE_NUM](_ => Inode(0, 0, NO_BLOCKS));
      inodeMap := new bool[INODE_NUM](_ => false);
      leaked := {};
      new;
      assert Files(bm.blocks[..], inodes[..]) == map[];
      assert !Live(1);
      label Formatted:
      var rootDir := AllocInode(T_DIR);
      assert rootDir != 0 by {
        assert rootDir == 0 ==> inodes[1] == old@Formatted(inodes[1]) && Live(1);
      }
      assert rootDir == 1;
      assert Contents() == map[1 := []];
    }

    // ---- Freeing ------------------------------------------------------------------------------------------

    /** Free the data blocks of a file; an indirect block stays in use. */
    method FreeFile(ino: Inode)
      requires bm.Valid() && FileOk(bm.blocks[..], bm.usingBlocks, ino)
      modifies bm`usingBlocks, bm.blocks
      ensures bm.Valid() && SameData(old(bm.blocks[..]), bm.blocks[..], {})
      ensures bm.usingBlocks == old(bm.usingBlocks) - ToSet(FileBlocks(old(bm.blocks[..]), ino))
    {
      ghost var blocks0, used0 := bm.blocks[..], bm.usingBlocks;
      ghost var nums := FileBlocks(blocks0, ino);
      var oldSize: int := ino.size;
      var i := 0;
      while i <= NDIRECT
        invariant i <= NDIRECT + 1 && (i <= NDIRECT ==> i < |nums| && oldSize == ino.size - i * BLOCK_SIZE)
        invariant bm.Valid() && SameData(blocks0, bm.blocks[..], {})
        invariant bm.usingBlocks == used0 - ToSet(if i <= NDIRECT then nums[..i] else nums)
      {
        if i != NDIRECT {
          FreeNext(ino.blocks[i], ino, i, blocks0, used0);
          oldSize := oldSize - BLOCK_SIZE;
          if oldSize <= 0 {
            assert nums[..i + 1] == nums;
            break;
          }
        } else {
          FreeIndirect(ino, oldSize, blocks0, used0);
        }
        i := i + 1;
      }
    }

    /** Free the k-th block of a file, those before it being free. */
    method FreeNext(id: nat, ghost ino: Inode, ghost k: nat, ghost blocks0: seq<Block>, ghost used0: set<nat>)
      requires BitmapOk(blocks0, used0) && FileOk(blocks0, used0, ino)
      requires k < Count(ino.size) && id == FileBlocks(blocks0, ino)[k]
      requires bm.Valid() && SameData(blocks0, bm.blocks[..], {})
      requires bm.usingBlocks == used0 - ToSet(FileBlocks(blocks0, ino)[..k])
      modifies bm`usingBlocks, bm.blocks
      ensures bm.Valid() && SameData(blocks0, bm.blocks[..], {})
      ensures bm.usingBlocks == used0 - ToSet(FileBlocks(blocks0, ino)[..k + 1])
    {
      NextIsUsed(blocks0, used0, ino, k);
      bm.FreeBlock(id);
    }

    /** The blocks whose numbers are in the indirect block. */
    method FreeIndirect(ino: Inode, size: int, ghost blocks0: seq<Block>, ghost used0: set<nat>)
      requires BitmapOk(blocks0, used0) && FileOk(blocks0, used0, ino) && Indirect(ino)
      requires size == ino.size - NDIRECT * BLOCK_SIZE
      requires bm.Valid() && SameData(blocks0, bm.blocks[..], {})
      requires bm.usingBlocks == used0 - ToSet(FileBlocks(blocks0, ino)[..NDIRECT])
      modifies bm`usingBlocks, bm.blocks
      ensures bm.Valid() && SameData(blocks0, bm.blocks[..], {})
      ensures bm.usingBlocks == used0 - ToSet(FileBlocks(blocks0, ino))
    {
      ghost var nums := FileBlocks(blocks0, ino);
      var oldSize := size;
      NextIsUsed(blocks0, used0, ino, NDIRECT);
      var buf := bm.ReadBlock(ino.blocks[NDIRECT]);
      var j := 0;
      while j < NINDIRECT
        invariant j <= NINDIRECT && NDIRECT + j < |nums| && oldSize == ino.size - (NDIRECT + j) * BLOCK_SIZE
        invariant bm.Valid() && SameData(blocks0, bm.blocks[..], {})
        invariant bm.usingBlocks == used0 - ToSet(nums[..NDIRECT + j])
      {
        FreeNext(NumberAt(buf, j), ino, NDIRECT + j, blocks0, used0);
        oldSize := oldSize - BLOCK_SIZE;
        if oldSize <= 0 {
          assert nums[..NDIRECT + j + 1] == nums;
          break;
        }
        j := j + 1;
      }
    }

    // ---- Writing --------------------------------------------------------------------------------------------

    /** The next block of the buffer; after the end of the buffer it holds whatever was in memory. */
    method MakeBlock(buf: seq<byte>, count: nat, sizeLeft: int) returns (block: Block)
      requires count * BLOCK_SIZE <= |buf| && sizeLeft == |buf| - count * BLOCK_SIZE
      ensures HoldsPiece(block, buf, count)
    {
      if sizeLeft < BLOCK_SIZE {
        var tail := new byte[BLOCK_SIZE];
        var i := 0;
        while i < sizeLeft
          invariant i <= sizeLeft
          invariant tail[..i] == buf[count * BLOCK_SIZE..count * BLOCK_SIZE + i]
        {
          tail[i] := buf[count * BLOCK_SIZE + i];
          i := i + 1;
        }
        block := tail[..];
        assert block[..i] == tail[..i];
      } else {
        block := buf[count * BLOCK_SIZE..(count + 1) * BLOCK_SIZE];
        assert block[..BLOCK_SIZE] == block;
      }
    }

    /** Take one block and put the next piece of the buffer there. */
    method WritePiece(buf: seq<byte>, blockCnt: nat, sizeLeft: int, ghost blocks0: seq<Block>, ghost used0: set<nat>,
                      ghost nums: seq<nat>, ghost extra: set<nat>)
      returns (id: nat)
      requires bm.Valid() && Written(blocks0, used0, bm.blocks[..], bm.usingBlocks, nums, extra, buf)
      requires blockCnt == |nums| && blockCnt * BLOCK_SIZE <= |buf| && sizeLeft == |buf| - blockCnt * BLOCK_SIZE
      requires |FreeData(bm.usingBlocks)| >= 1
      modifies bm`usingBlocks, bm.blocks
      ensures bm.Valid() && Written(blocks0, used0, bm.blocks[..], bm.usingBlocks, nums + [id], extra, buf)
      ensures |FreeData(bm.usingBlocks)| == |FreeData(old(bm.usingBlocks))| - 1
      ensures id in FreeData(old(bm.usingBlocks)) && SameData(old(bm.blocks[..]), bm.blocks[..], {id})
    {
      id := bm.AllocBlock();
      ghost var blocks1 := bm.blocks[..];
      var block := MakeBlock(buf, blockCnt, sizeLeft);
      DataKeepsBitmap(blocks1, bm.usingBlocks, id, block);
      bm.WriteBlock(id, block);
      OneFewerFree(old(bm.usingBlocks), id);
      WriteNext(blocks0, used0, old(bm.blocks[..]), old(bm.usingBlocks), nums, extra, buf, id, bm.blocks[..]);
    }

    /** Take blocks for the whole buffer and write it. */
    method WriteBlocks(ino: Inode, buf: seq<byte>) returns (ino': Inode)
      requires bm.Valid() && |buf| <= MAX_FILE && |ino.blocks| == NDIRECT + 1
      requires |FreeData(bm.usingBlocks)| >= Needed(|buf|)
      modifies bm`usingBlocks, bm.blocks
      ensures bm.Valid() && ino'.kind == ino.kind && ino'.size == |buf|
      ensures FileOk(bm.blocks[..], bm.usingBlocks, ino') && !Fresh(ino')
      ensures Taken(old(bm.blocks[..]), old(bm.usingBlocks), bm.blocks[..], bm.usingBlocks, Owned(bm.blocks[..], ino'))
      ensures Bytes(bm.blocks[..], ino') == buf
    {
      ghost var blocks0, used0 := bm.blocks[..], bm.usingBlocks;
      ghost var nums: seq<nat> := [];
      var table, sizeLeft: int := ino.blocks, |buf|;
      var i := 0;
      while i <= NDIRECT
        invariant i <= NDIRECT + 1 && |table| == NDIRECT + 1 && bm.Valid()
        invariant i <= NDIRECT ==>
          i == |nums| < Count(|buf|) && sizeLeft == |buf| - i * BLOCK_SIZE && i * BLOCK_SIZE <= |buf| && table[..i] == nums
        invariant i <= NDIRECT ==> Written(blocks0, used0, bm.blocks[..], bm.usingBlocks, nums, {}, buf)
        invariant i <= NDIRECT ==> |FreeData(bm.usingBlocks)| >= Needed(|buf|) - i
        invariant i == NDIRECT + 1 ==> Count(|buf|) > NDIRECT
        invariant i == NDIRECT + 1 ==> Written(blocks0, used0, bm.blocks[..], bm.usingBlocks, nums, {table[NDIRECT]}, buf)
        invariant i == NDIRECT + 1 ==> Keeps(bm.blocks[..], Inode(ino.kind, |buf|, table), nums)
      {
        if i != NDIRECT {
          var id := WritePiece(buf, i, sizeLeft, blocks0, used0, nums, {});
          table := table[i := id];
          nums := nums + [id];
          sizeLeft := sizeLeft - BLOCK_SIZE;
          if sizeLeft <= 0 {
            break;
          }
        } else {
          var ind;
          ind, nums := WriteIndirect(buf, sizeLeft, table, blocks0, used0, nums);
          table := table[i := ind];
        }
        i := i + 1;
      }
      ino' := Inode(ino.kind, |buf|, table);
      FileWritten(blocks0, used0, bm.blocks[..], bm.usingBlocks, nums, ino', buf);
    }

    /** The blocks past the direct ones, and the block with their numbers. */
    method WriteIndirect(buf: seq<byte>, size: int, ghost table: seq<nat>, ghost blocks0: seq<Block>, ghost used0: set<nat>,
                         ghost nums0: seq<nat>)
      returns (ind: nat, ghost nums: seq<nat>)
      requires bm.Valid() && |buf| <= MAX_FILE && Count(|buf|) > NDIRECT == |nums0| && size == |buf| - NDIRECT * BLOCK_SIZE
      requires Written(blocks0, used0, bm.blocks[..], bm.usingBlocks, nums0, {}, buf)
      requires |table| == NDIRECT + 1 && table[..NDIRECT] == nums0
      requires |FreeData(bm.usingBlocks)| >= Needed(|buf|) - NDIRECT
      modifies bm`usingBlocks, bm.blocks
      ensures bm.Valid() && ind < BLOCK_NUM
      ensures Written(blocks0, used0, bm.blocks[..], bm.usingBlocks, nums, {ind}, buf)
      ensures Keeps(bm.blocks[..], Inode(0, |buf|, table[NDIRECT := ind]), nums)
    {
      var blockNums := new byte[BLOCK_SIZE];
      ind := bm.AllocBlock();
      OneFewerFree(old(bm.usingBlocks), ind);
      TakeExtra(blocks0, used0, old(bm.blocks[..]), old(bm.usingBlocks), nums0, {}, buf, ind, bm.blocks[..]);
      assert {} + {ind} == {ind};
      nums := WriteRest(buf, size, blockNums, blocks0, used0, nums0, ind);
      NumbersWritten(blocks0, used0, bm.blocks[..], bm.usingBlocks, nums, ind, buf, blockNums[..]);
      bm.WriteBlock(ind, blockNums[..]);
    }

    /** The numbers of the blocks past the direct ones, as far as they have been collected. */
    ghost predicate Collected(block: seq<byte>, nums: seq<nat>) {
      |block| == BLOCK_SIZE && forall k | NDIRECT <= k < |nums| && k < NDIRECT + NINDIRECT :: NumberAt(block, k - NDIRECT) == nums[k]
    }

    method WriteRest(buf: seq<byte>, size: int, blockNums: array<byte>, ghost blocks0: seq<Block>, ghost used0: set<nat>,
                     ghost nums0: seq<nat>, ghost ind: nat)
      returns (ghost nums: seq<nat>)
      requires bm.Valid() && |buf| <= MAX_FILE && Count(|buf|) > NDIRECT == |nums0| && size == |buf| - NDIRECT * BLOCK_SIZE
      requires Written(blocks0, used0, bm.blocks[..], bm.usingBlocks, nums0, {ind}, buf)
      requires |FreeData(bm.usingBlocks)| >= Count(|buf|) - NDIRECT
      requires blockNums.Length == BLOCK_SIZE
      modifies bm`usingBlocks, bm.blocks, blockNums
      ensures bm.Valid() && Written(blocks0, used0, bm.blocks[..], bm.usingBlocks, nums, {ind}, buf)
      ensures |nums| == Count(|buf|) && nums[..NDIRECT] == nums0 && Collected(blockNums[..], nums)
    {
      var sizeLeft := size;
      nums := nums0;
      var j := 0;
      while j < NINDIRECT
        invariant j <= NINDIRECT && |nums| == NDIRECT + j < Count(|buf|) && nums[..NDIRECT] == nums0
        invariant sizeLeft == |buf| - (NDIRECT + j) * BLOCK_SIZE && (NDIRECT + j) * BLOCK_SIZE <= |buf|
        invariant bm.Valid() && Written(blocks0, used0, bm.blocks[..], bm.usingBlocks, nums, {ind}, buf)
        invariant |FreeData(bm.usingBlocks)| >= Count(|buf|) - NDIRECT - j
        invariant Collected(blockNums[..], nums)
      {
        var id := WritePiece(buf, NDIRECT + j, sizeLeft, blocks0, used0, nums, {ind});
        PutNumber(blockNums, j, id);
        nums := nums + [id];
        sizeLeft := sizeLeft - BLOCK_SIZE;
        if sizeLeft <= 0 {
          break;
        }
        j := j + 1;
      }
    }

    // ---- Reading ------------------------------------------------------------------------------------------------

    /** Copy one block into the buffer that is handed out. */
    method CopyBlock(rv: array<byte>, id: nat, blockCnt: nat)
      requires bm.blocks.Length == BLOCK_NUM && id < BLOCK_NUM && (blockCnt + 1) * BLOCK_SIZE <= rv.Length
      modifies rv
      ensures rv[..(blockCnt + 1) * BLOCK_SIZE] == old(rv[..blockCnt * BLOCK_SIZE]) + bm.blocks[id]
    {
      var buf := bm.ReadBlock(id);
      var off := blockCnt * BLOCK_SIZE;
      var i := 0;
      while i < BLOCK_SIZE
        invariant i <= BLOCK_SIZE
        invariant rv[..off + i] == old(rv[..off]) + buf[..i]
      {
        rv[off + i] := buf[i];
        i := i + 1;
      }
      assert buf[..i] == buf;
    }

    /** The blocks of a file, one after the other; the caller takes as many bytes as the size says. */
    method ReadBlocks(ino: Inode, rv: array<byte>, ghost blocks: seq<Block>)
      requires blocks == bm.blocks[..] && |blocks| == BLOCK_NUM && WellFormed(ino) && OnDisk(FileBlocks(blocks, ino))
      requires rv.Length == READ_BUFFER
      modifies rv
      ensures rv[..Count(ino.size) * BLOCK_SIZE] == Joined(blocks, FileBlocks(blocks, ino))
    {
      ghost var nums := FileBlocks(blocks, ino);
      var sizeLeft: int := ino.size;
      var i := 0;
      while i <= NDIRECT
        invariant i <= NDIRECT + 1 && (i <= NDIRECT ==> i < |nums| && sizeLeft == ino.size - i * BLOCK_SIZE)
        invariant i <= NDIRECT ==> OnDisk(nums[..i]) && rv[..i * BLOCK_SIZE] == Joined(blocks, nums[..i])
        invariant i > NDIRECT ==> rv[..|nums| * BLOCK_SIZE] == Joined(blocks, nums)
      {
        if i != NDIRECT {
          CopyNext(ino.blocks[i], rv, nums, i, blocks);
          sizeLeft := sizeLeft - BLOCK_SIZE;
          if sizeLeft <= 0 {
            assert nums[..i + 1] == nums;
            break;
          }
        } else {
          ReadIndirect(ino, sizeLeft, rv, blocks);
        }
        i := i + 1;
      }
    }

    /** Copy the k-th block behind those before it. */
    method CopyNext(id: nat, rv: array<byte>, ghost nums: seq<nat>, k: nat, ghost blocks: seq<Block>)
      requires blocks == bm.blocks[..] && |blocks| == BLOCK_NUM && OnDisk(nums) && k < |nums| && id == nums[k]
      requires rv.Length == READ_BUFFER && (k + 1) * BLOCK_SIZE <= rv.Length
      requires OnDisk(nums[..k]) && rv[..k * BLOCK_SIZE] == Joined(blocks, nums[..k])
      modifies rv
      ensures OnDisk(nums[..k + 1]) && rv[..(k + 1) * BLOCK_SIZE] == Joined(blocks, nums[..k + 1])
    {
      JoinNext(blocks, nums, k);
      CopyBlock(rv, id, k);
    }

    method ReadIndirect(ino: Inode, size: int, rv: array<byte>, ghost blocks: seq<Block>)
      requires blocks == bm.blocks[..] && |blocks| == BLOCK_NUM && WellFormed(ino) && OnDisk(FileBlocks(blocks, ino))
      requires Indirect(ino) && size == ino.size - NDIRECT * BLOCK_SIZE && rv.Length == READ_BUFFER
      requires OnDisk(FileBlocks(blocks, ino)[..NDIRECT])
      requires rv[..NDIRECT * BLOCK_SIZE] == Joined(blocks, FileBlocks(blocks, ino)[..NDIRECT])
      modifies rv
      ensures rv[..Count(ino.size) * BLOCK_SIZE] == Joined(blocks, FileBlocks(blocks, ino))
    {
      ghost var nums := FileBlocks(blocks, ino);
      var sizeLeft := size;
      var buf := bm.ReadBlock(ino.blocks[NDIRECT]);
      var j := 0;
      while j < NINDIRECT
        invariant j <= NINDIRECT && NDIRECT + j < |nums| && sizeLeft == ino.size - (NDIRECT + j) * BLOCK_SIZE
        invariant OnDisk(nums[..NDIRECT + j]) && rv[..(NDIRECT + j) * BLOCK_SIZE] == Joined(blocks, nums[..NDIRECT + j])
      {
        CopyNext(NumberAt(buf, j), rv, nums, NDIRECT + j, blocks);
        LastBlock(ino.size, NDIRECT + j);
        sizeLeft := sizeLeft - BLOCK_SIZE;
        if sizeLeft <= 0 {
          assert nums[..NDIRECT + j + 1] == nums;
          break;
        }
        j := j + 1;
      }
    }

    // ---- The operations ----------------------------------------------------------------------------------------------

    ghost predicate Live(inum: nat)
      reads inodes
    {
      inum < inodes.Length && inodes[inum].kind != 0
    }

    /** The first free inode, or 0. */
    method AllocInode(kind: nat) returns (inum: nat)
      requires Valid() && kind != 0
      modifies inodes, inodeMap
      ensures Valid()
      ensures inum == 0 ==> Contents() == old(Contents()) && forall i | 1 <= i < INODE_NUM :: Live(i)
      ensures inum < INODE_NUM
      ensures inum != 0 ==> !old(Live(inum)) && Contents() == old(Contents())[inum := []]
      ensures inum != 0 ==> inodes[inum] == Inode(kind, 0, NO_BLOCKS) && forall i | 1 <= i < inum :: old(Live(i))
      ensures forall i | 0 <= i < INODE_NUM && (i != inum || inum == 0) :: inodes[i] == old(inodes[i])
    {
      var i := 1;
      while i < INODE_NUM
        invariant 1 <= i <= INODE_NUM
        invariant forall k | 1 <= k < i :: Live(k)
        invariant inodes[..] == old(inodes[..]) && inodeMap[..] == old(inodeMap[..])
      {
        if !inodeMap[i] {
          Created(bm.blocks[..], bm.usingBlocks, inodes[..], leaked, i, kind);
          ghost var before := inodes[..];
          inodes[i] := Inode(kind, 0, NO_BLOCKS);
          inodeMap[i] := true;
          assert inodes[..] == before[i := Inode(kind, 0, NO_BLOCKS)];
          return i;
        }
        i := i + 1;
      }
      return 0;
    }

    /** Kind and size; kind 0 for a file that is not there. */
    method GetAttr(inum: nat) returns (kind: nat, size: nat)
      requires Valid() && inum < INODE_NUM
      ensures kind == inodes[inum].kind && (kind != 0 <==> inum in Contents())
      ensures kind != 0 ==> size == |Contents()[inum]|
    {
      kind, size := inodes[inum].kind, inodes[inum].size;
      if kind != 0 {
        FileOnDisk(bm.blocks[..], bm.usingBlocks, inodes[inum]);
      } else {
        size := 0;
      }
    }

    method ReadFile(inum: nat) returns (rv: array<byte>, size: nat)
      requires Valid() && Live(inum)
      ensures size <= rv.Length && inum in Contents() && rv[..size] == Contents()[inum]
    {
      var ino := inodes[inum];
      rv := new byte[READ_BUFFER];
      size := ino.size;
      FileOnDisk(bm.blocks[..], bm.usingBlocks, ino);
      ReadBlocks(ino, rv, bm.blocks[..]);
      assert rv[..size] == rv[..Count(size) * BLOCK_SIZE][..size];
    }

    /** The file holds the buffer, and all others hold what they held. Only an old indirect block is lost. */
    method WriteFile(inum: nat, buf: seq<byte>)
      requires Valid() && Live(inum) && |buf| <= MAX_FILE
      requires |FreeData(bm.usingBlocks - ToSet(FileBlocks(bm.blocks[..], inodes[inum])))| >= Needed(|buf|)
      modifies this`leaked, bm`usingBlocks, bm.blocks, inodes
      ensures Valid() && Contents() == old(Contents())[inum := buf]
      ensures leaked == old(leaked) + IndirectBlock(old(inodes[inum]))
      ensures inodes[..] == old(inodes[..])[inum := inodes[inum]] && inodes[inum].kind == old(inodes[inum].kind)
    {
      var ino := inodes[inum];
      FreeFile(ino);
      ghost var blocks1, used1 := bm.blocks[..], bm.usingBlocks;
      var ino' := WriteBlocks(ino, buf);
      Replaced(old(bm.blocks[..]), old(bm.usingBlocks), inodes[..], leaked, inum, ino', bm.blocks[..], bm.usingBlocks);
      leaked := leaked + IndirectBlock(ino);
      inodes[inum] := ino';
      assert inodes[..] == old(inodes[..])[inum := ino'];
    }

    method FreeInode(inum: nat)
      requires inodes.Length == INODE_NUM && inodeMap.Length == INODE_NUM && inum < INODE_NUM
      modifies inodes, inodeMap
      ensures if old(inodes[inum]).kind == 0 then inodes[..] == old(inodes[..]) && inodeMap[..] == old(inodeMap[..])
              else inodes[..] == old(inodes[..])[inum := old(inodes[inum]).(kind := 0)] && inodeMap[..] == old(inodeMap[..])[inum := false]
    {
      var ino := inodes[inum];
      if ino.kind == 0 {
        return;
      }
      inodes[inum] := ino.(kind := 0);
      inodeMap[inum] := false;
    }

    method RemoveFile(inum: nat)
      requires Valid() && Live(inum)
      modifies this`leaked, bm`usingBlocks, bm.blocks, inodes, inodeMap
      ensures Valid() && Contents() == old(Contents()) - {inum} && !Live(inum)
      ensures forall i | 0 <= i < INODE_NUM && i != inum :: inodes[i] == old(inodes[i])
      ensures leaked == old(leaked) + IndirectBlock(old(inodes[inum]))
    {
      var ino := inodes[inum];
      FreeFile(ino);
      Replaced(old(bm.blocks[..]), old(bm.usingBlocks), inodes[..], leaked, inum, ino.(kind := 0), bm.blocks[..], bm.usingBlocks);
      leaked := leaked + IndirectBlock(ino);
      FreeInode(inum);
    }
  }

  /** Store a number byte by byte, the low one first. */
  method PutNumber(buf: array<byte>, j: nat, n: nat)
    requires buf.Length == BLOCK_SIZE && j < NINDIRECT && n < BLOCK_NUM
    modifies buf
    ensures NumberAt(buf[..], j) == n
    ensures forall k: nat | k < NINDIRECT && k != j :: NumberAt(buf[..], k) == NumberAt(old(buf[..]), k)
  {
    var id, k := n, 4 * j;
    while k < 4 * j + 4
      invariant 4 * j <= k <= 4 * j + 4 && id < 0x1_0000_0000
      invariant k == 4 * j ==> id == n
      invariant k == 4 * j + 1 ==> id == n / 256 && buf[4 * j..k] == BytesOf(n)[..1]
      invariant k == 4 * j + 2 ==> id == n / 256 / 256 && buf[4 * j..k] == BytesOf(n)[..2]
      invariant k == 4 * j + 3 ==> id == n / 256 / 256 / 256 && buf[4 * j..k] == BytesOf(n)[..3]
      invariant k == 4 * j + 4 ==> buf[4 * j..k] == BytesOf(n)
      invariant forall l | 0 <= l < BLOCK_SIZE && (l < 4 * j || l >= 4 * j + 4) :: buf[l] == old(buf[l])
    {
      buf[k] := id % 256;
      id := id / 256;
      k := k + 1;
    }
    NumberRoundTrip(buf[..], j, n);
  }
}
