/** Files: which blocks an inode stands for, what they hold, and what keeps files apart. */
module InodeModel {
  import opened Blocks

  /** An inode; times are left out. Kind 0 is free. */
  datatype Inode = Inode(kind: nat, size: nat, blocks: seq<nat>)

  const NO_BLOCKS: seq<nat> := seq(NDIRECT + 1, _ => 0)

  /** The loops go round at least once, also for an empty file. */
  function Count(size: nat): (n: nat)
    ensures n >= 1
    ensures size <= MAX_FILE ==> n <= NDIRECT + NINDIRECT
    ensures size <= n * BLOCK_SIZE
    ensures n > 1 ==> (n - 1) * BLOCK_SIZE < size
  {
    if size <= BLOCK_SIZE then 1 else (size + BLOCK_SIZE - 1) / BLOCK_SIZE
  }

  predicate Indirect(ino: Inode) {
    Count(ino.size) > NDIRECT
  }

  /** An inode that was allocated and not yet written: its one block is block 0. */
  predicate Fresh(ino: Inode) {
    ino.size == 0 && |ino.blocks| > 0 && ino.blocks[0] == 0
  }

  predicate WellFormed(ino: Inode) {
    && ino.size <= MAX_FILE && |ino.blocks| == NDIRECT + 1
    && (forall k | 0 <= k < NDIRECT && k < Count(ino.size) :: ino.blocks[k] < BLOCK_NUM)
    && (Indirect(ino) ==> ino.blocks[NDIRECT] < BLOCK_NUM)
  }

  function BlockAt(blocks: seq<Block>, ino: Inode, k: nat): nat
    requires |blocks| == BLOCK_NUM && WellFormed(ino) && k < Count(ino.size)
  {
    if k < NDIRECT then ino.blocks[k] else NumberAt(blocks[ino.blocks[NDIRECT]], k - NDIRECT)
  }

  /** The data blocks of a file, in order. */
  function FileBlocks(blocks: seq<Block>, ino: Inode): (nums: seq<nat>)
    requires |blocks| == BLOCK_NUM && WellFormed(ino)
    ensures |nums| == Count(ino.size)
    ensures forall k | 0 <= k < |nums| :: nums[k] == BlockAt(blocks, ino, k)
  {
    seq(Count(ino.size), k requires 0 <= k < Count(ino.size) => BlockAt(blocks, ino, k))
  }

  function ToSet(nums: seq<nat>): set<nat> {
    set n | n in nums
  }

  predicate Distinct(nums: seq<nat>) {
    forall i, j | 0 <= i < j < |nums| :: nums[i] != nums[j]
  }

  /** The data blocks and the indirect block of a file. */
  function Owned(blocks: seq<Block>, ino: Inode): set<nat>
    requires |blocks| == BLOCK_NUM && WellFormed(ino)
  {
    if Fresh(ino) then {}
    else ToSet(FileBlocks(blocks, ino)) + if Indirect(ino) then {ino.blocks[NDIRECT]} else {}
  }

  ghost predicate FileOk(blocks: seq<Block>, used: set<nat>, ino: Inode) {
    && |blocks| == BLOCK_NUM && WellFormed(ino)
    && Owned(blocks, ino) <= used
    && (!Fresh(ino) ==> Distinct(FileBlocks(blocks, ino)))
    && (!Fresh(ino) && Indirect(ino) ==> ino.blocks[NDIRECT] !in FileBlocks(blocks, ino))
  }

  // ---- What a file holds -----------------------------------------------------------------------------------

  /** The size left after k + 1 blocks says whether there are more. */
  lemma LastBlock(size: nat, k: nat)
    requires k < Count(size)
    ensures size - (k + 1) * BLOCK_SIZE <= 0 <==> k + 1 == Count(size)
  {
  }

  lemma JoinNext(blocks: seq<Block>, nums: seq<nat>, k: nat)
    requires |blocks| == BLOCK_NUM && OnDisk(nums) && k < |nums|
    ensures OnDisk(nums[..k]) && OnDisk(nums[..k + 1])
    ensures Joined(blocks, nums[..k + 1]) == Joined(blocks, nums[..k]) + blocks[nums[k]]
  {
    assert nums[..k + 1][..k] == nums[..k];
  }

  predicate OnDisk(nums: seq<nat>) {
    forall k | 0 <= k < |nums| :: nums[k] < BLOCK_NUM
  }

  function Joined(blocks: seq<Block>, nums: seq<nat>): (bs: seq<byte>)
    requires |blocks| == BLOCK_NUM && OnDisk(nums)
    ensures |bs| == |nums| * BLOCK_SIZE
  {
    if nums == [] then [] else Joined(blocks, nums[..|nums| - 1]) + blocks[nums[|nums| - 1]]
  }

  function Content(blocks: seq<Block>, ino: Inode): seq<byte>
    requires |blocks| == BLOCK_NUM && WellFormed(ino) && OnDisk(FileBlocks(blocks, ino))
  {
    Joined(blocks, FileBlocks(blocks, ino))[..ino.size]
  }

  function Min(a: nat, b: nat): nat {
    if a < b then a else b
  }

  /** The block holds the k-th piece of the buffer, and anything after its end. */
  predicate HoldsPiece(block: Block, buf: seq<byte>, k: nat)
    requires k * BLOCK_SIZE <= |buf|
  {
    var n := Min(BLOCK_SIZE, |buf| - k * BLOCK_SIZE);
    block[..n] == buf[k * BLOCK_SIZE..k * BLOCK_SIZE + n]
  }

  lemma TakeJoined(front: seq<byte>, back: seq<byte>, m: nat)
    requires m <= |back|
    ensures (front + back)[..|front| + m] == front + back[..m]
  {
  }

  lemma SplitTake(buf: seq<byte>, p: nat, q: nat)
    requires p <= q <= |buf|
    ensures buf[..q] == buf[..p] + buf[p..q]
  {
  }

  lemma {:induction false} PiecesJoin(blocks: seq<Block>, nums: seq<nat>, buf: seq<byte>)
    requires |blocks| == BLOCK_NUM && OnDisk(nums)
    requires nums != [] ==> (|nums| - 1) * BLOCK_SIZE <= |buf|
    requires forall k | 0 <= k < |nums| :: HoldsPiece(blocks[nums[k]], buf, k)
    ensures var n := Min(|nums| * BLOCK_SIZE, |buf|); Joined(blocks, nums)[..n] == buf[..n]
  {
    if nums != [] {
      var k := |nums| - 1;
      PiecesJoin(blocks, nums[..k], buf);
      var m := Min(BLOCK_SIZE, |buf| - k * BLOCK_SIZE);
      var front, block := Joined(blocks, nums[..k]), blocks[nums[k]];
      assert HoldsPiece(block, buf, k);
      var p := k * BLOCK_SIZE;
      TakeJoined(front, block, m);
      SplitTake(buf, p, p + m);
      assert |front| == p && front == front[..p] == buf[..p];
      assert block[..m] == buf[p..p + m];
    }
  }

  lemma {:induction false} JoinedSame(blocks: seq<Block>, blocks': seq<Block>, nums: seq<nat>)
    requires |blocks| == |blocks'| == BLOCK_NUM && OnDisk(nums)
    requires forall k | 0 <= k < |nums| :: blocks[nums[k]] == blocks'[nums[k]]
    ensures Joined(blocks, nums) == Joined(blocks', nums)
  {
    if nums != [] {
      JoinedSame(blocks, blocks', nums[..|nums| - 1]);
    }
  }

  /** A file whose blocks are left alone is the same file. */
  lemma FileSame(blocks: seq<Block>, blocks': seq<Block>, used: set<nat>, ino: Inode, except: set<nat>)
    requires BitmapOk(blocks, used) && FileOk(blocks, used, ino) && SameData(blocks, blocks', except)
    requires Owned(blocks, ino) !! except
    ensures FileOk(blocks', Owned(blocks, ino), ino) && Owned(blocks', ino) == Owned(blocks, ino)
    ensures FileBlocks(blocks', ino) == FileBlocks(blocks, ino)
  {
    if !Fresh(ino) {
      if Indirect(ino) {
        assert ino.blocks[NDIRECT] in Owned(blocks, ino);
      }
      assert FileBlocks(blocks', ino) == FileBlocks(blocks, ino);
    } else {
      assert FileBlocks(blocks', ino) == FileBlocks(blocks, ino);
    }
  }

  lemma FileOnDisk(blocks: seq<Block>, used: set<nat>, ino: Inode)
    requires BitmapOk(blocks, used) && FileOk(blocks, used, ino)
    ensures OnDisk(FileBlocks(blocks, ino))
  {
    var nums := FileBlocks(blocks, ino);
    if !Fresh(ino) {
      forall k | 0 <= k < |nums| ensures nums[k] < BLOCK_NUM {
        assert nums[k] in Owned(blocks, ino);
      }
    }
  }

  /** What is needed to free the k-th block after the ones before it. */
  lemma NextIsUsed(blocks: seq<Block>, used: set<nat>, ino: Inode, k: nat)
    requires BitmapOk(blocks, used) && FileOk(blocks, used, ino) && k < Count(ino.size)
    ensures var nums := FileBlocks(blocks, ino);
            && nums[k] < BLOCK_NUM && (IsData(nums[k]) ==> nums[k] in used - ToSet(nums[..k]))
            && ToSet(nums[..k + 1]) == ToSet(nums[..k]) + {nums[k]}
    ensures Indirect(ino) ==> ino.blocks[NDIRECT] < BLOCK_NUM && IsData(ino.blocks[NDIRECT])
  {
    var nums := FileBlocks(blocks, ino);
    assert nums[..k + 1] == nums[..k] + [nums[k]];
    if !Fresh(ino) {
      var n := nums[k];
      assert n in Owned(blocks, ino);
      if Indirect(ino) {
        assert ino.blocks[NDIRECT] in Owned(blocks, ino);
      }
    }
  }

  // ---- Writing a file anew ------------------------------------------------------------------------------------

  /** The data blocks that are free. */
  function FreeData(used: set<nat>): set<nat> {
    set b: nat | b < BLOCK_NUM && IsData(b) && b !in used
  }

  /** How many blocks a file of some size takes, its indirect block included. */
  function Needed(size: nat): nat {
    Count(size) + if Count(size) > NDIRECT then 1 else 0
  }

  /** Some blocks have been taken, and the data has not changed elsewhere. */
  ghost predicate Taken(blocks0: seq<Block>, used0: set<nat>, blocks: seq<Block>, used: set<nat>, taken: set<nat>) {
    BitmapOk(blocks, used) && used == used0 + taken && taken !! used0 && SameData(blocks0, blocks, taken)
  }

  /** The first pieces of the buffer are in new blocks; some other blocks may have been taken too. */
  ghost predicate Written(blocks0: seq<Block>, used0: set<nat>, blocks: seq<Block>, used: set<nat>,
                          nums: seq<nat>, extra: set<nat>, buf: seq<byte>)
  {
    && Taken(blocks0, used0, blocks, used, ToSet(nums) + extra)
    && ToSet(nums) !! extra && Distinct(nums) && OnDisk(nums)
    && (nums != [] ==> (|nums| - 1) * BLOCK_SIZE <= |buf|)
    && forall k | 0 <= k < |nums| :: HoldsPiece(blocks[nums[k]], buf, k)
  }

  /** Writing a data block leaves the bitmap alone. */
  lemma DataKeepsBitmap(blocks: seq<Block>, used: set<nat>, id: nat, block: Block)
    requires BitmapOk(blocks, used) && id < BLOCK_NUM && IsData(id)
    ensures BitmapOk(blocks[id := block], used) && SameData(blocks, blocks[id := block], {id})
  {
    var blocks' := blocks[id := block];
    forall b: nat | b < BLOCK_NUM && IsData(b) ensures Marked(blocks', b) <==> b in used {
      assert blocks'[BBlock(b)] == blocks[BBlock(b)];
      assert Marked(blocks, b) <==> b in used;
    }
  }

  lemma OneFewerFree(used: set<nat>, id: nat)
    requires id in FreeData(used)
    ensures |FreeData(used + {id})| == |FreeData(used)| - 1
  {
    assert FreeData(used + {id}) == FreeData(used) - {id};
  }

  /** One more block taken: for the indirect numbers. */
  lemma TakeExtra(blocks0: seq<Block>, used0: set<nat>, blocks: seq<Block>, used: set<nat>,
                  nums: seq<nat>, extra: set<nat>, buf: seq<byte>, id: nat, blocks': seq<Block>)
    requires Written(blocks0, used0, blocks, used, nums, extra, buf)
    requires id in FreeData(used) && BitmapOk(blocks', used + {id}) && SameData(blocks, blocks', {id})
    ensures Written(blocks0, used0, blocks', used + {id}, nums, extra + {id}, buf)
  {
    assert ToSet(nums) + (extra + {id}) == ToSet(nums) + extra + {id};
    forall k | 0 <= k < |nums| ensures HoldsPiece(blocks'[nums[k]], buf, k) {
      assert nums[k] in ToSet(nums);
      assert nums[k] in used;
    }
  }

  /** One more block taken and written with the next piece. */
  lemma WriteNext(blocks0: seq<Block>, used0: set<nat>, blocks: seq<Block>, used: set<nat>,
                  nums: seq<nat>, extra: set<nat>, buf: seq<byte>, id: nat, blocks': seq<Block>)
    requires Written(blocks0, used0, blocks, used, nums, extra, buf)
    requires id in FreeData(used) && BitmapOk(blocks', used + {id}) && SameData(blocks, blocks', {id})
    requires |nums| * BLOCK_SIZE <= |buf| && HoldsPiece(blocks'[id], buf, |nums|)
    ensures Written(blocks0, used0, blocks', used + {id}, nums + [id], extra, buf)
  {
    var nums' := nums + [id];
    assert ToSet(nums') == ToSet(nums) + {id};
    assert ToSet(nums') + extra == ToSet(nums) + extra + {id};
    forall k | 0 <= k < |nums'| ensures HoldsPiece(blocks'[nums'[k]], buf, k) && (k < |nums| ==> nums'[k] != id) {
      if k < |nums| {
        assert nums[k] in ToSet(nums);
        assert nums[k] in used;
      }
    }
  }

  /** Writing the indirect block changes none of the pieces. */
  lemma NumbersWritten(blocks0: seq<Block>, used0: set<nat>, blocks: seq<Block>, used: set<nat>,
                       nums: seq<nat>, ind: nat, buf: seq<byte>, block: Block)
    requires Written(blocks0, used0, blocks, used, nums, {ind}, buf) && ind < BLOCK_NUM
    ensures Written(blocks0, used0, blocks[ind := block], used, nums, {ind}, buf)
  {
    assert ind in used;
    DataKeepsBitmap(blocks, used, ind, block);
    assert ind in ToSet(nums) + {ind};
    forall k | 0 <= k < |nums| ensures HoldsPiece(blocks[ind := block][nums[k]], buf, k) {
      assert nums[k] in ToSet(nums);
    }
  }

  /** The numbers an inode keeps are those of the blocks that were written. */
  predicate Keeps(blocks: seq<Block>, ino: Inode, nums: seq<nat>)
    requires |blocks| == BLOCK_NUM
  {
    && |ino.blocks| == NDIRECT + 1 && |nums| == Count(ino.size)
    && (forall k | 0 <= k < |nums| && k < NDIRECT :: ino.blocks[k] == nums[k])
    && (Indirect(ino) ==> ino.blocks[NDIRECT] < BLOCK_NUM)
    && forall k | NDIRECT <= k < |nums| && k < NDIRECT + NINDIRECT :: NumberAt(blocks[ino.blocks[NDIRECT]], k - NDIRECT) == nums[k]
  }

  function IndirectBlock(ino: Inode): set<nat> {
    if Indirect(ino) && |ino.blocks| == NDIRECT + 1 then {ino.blocks[NDIRECT]} else {}
  }

  lemma FileWritten(blocks0: seq<Block>, used0: set<nat>, blocks: seq<Block>, used: set<nat>,
                    nums: seq<nat>, ino: Inode, buf: seq<byte>)
    requires Written(blocks0, used0, blocks, used, nums, IndirectBlock(ino), buf)
    requires ino.size == |buf| <= MAX_FILE && Keeps(blocks, ino, nums)
    ensures FileOk(blocks, used, ino) && !Fresh(ino)
    ensures Taken(blocks0, used0, blocks, used, Owned(blocks, ino))
    ensures Bytes(blocks, ino) == buf
  {
    assert WellFormed(ino);
    assert FileBlocks(blocks, ino) == nums;
    var first := nums[0];
    assert first in ToSet(nums) && first in used;
    assert Owned(blocks, ino) == ToSet(nums) + IndirectBlock(ino);
    PiecesJoin(blocks, nums, buf);
  }

  // ---- All files together -----------------------------------------------------------------------------------------

  /** What an inode owns; a free one owns nothing. */
  function Part(blocks: seq<Block>, ino: Inode): set<nat> {
    if ino.kind != 0 && |blocks| == BLOCK_NUM && WellFormed(ino) then Owned(blocks, ino) else {}
  }

  ghost predicate Apart(blocks: seq<Block>, inodes: seq<Inode>, i: nat, j: nat)
    requires i < |inodes| && j < |inodes|
  {
    i != j ==> Part(blocks, inodes[i]) !! Part(blocks, inodes[j])
  }

  ghost predicate EachOk(blocks: seq<Block>, used: set<nat>, inodes: seq<Inode>) {
    forall i | 0 <= i < |inodes| && inodes[i].kind != 0 :: FileOk(blocks, used, inodes[i])
  }

  ghost predicate AllApart(blocks: seq<Block>, inodes: seq<Inode>) {
    forall i: nat, j: nat {:trigger Apart(blocks, inodes, i, j)} | i < |inodes| && j < |inodes| :: Apart(blocks, inodes, i, j)
  }

  ghost predicate NotOf(blocks: seq<Block>, ino: Inode, leaked: set<nat>) {
    Part(blocks, ino) !! leaked
  }

  ghost predicate LeakOk(blocks: seq<Block>, used: set<nat>, inodes: seq<Inode>, leaked: set<nat>) {
    leaked <= used && forall i | 0 <= i < |inodes| :: NotOf(blocks, inodes[i], leaked)
  }

  ghost predicate AllOwned(blocks: seq<Block>, used: set<nat>, inodes: seq<Inode>, leaked: set<nat>) {
    forall b | b in used && b !in leaked :: SomebodysBlock(blocks, inodes, b)
  }

  /** Files are sound and disjoint, and every block in use is some file's or was leaked. */
  ghost predicate FilesOk(blocks: seq<Block>, used: set<nat>, inodes: seq<Inode>, leaked: set<nat>) {
    && BitmapOk(blocks, used) && EachOk(blocks, used, inodes) && AllApart(blocks, inodes)
    && LeakOk(blocks, used, inodes, leaked) && AllOwned(blocks, used, inodes, leaked)
  }

  ghost predicate SomebodysBlock(blocks: seq<Block>, inodes: seq<Inode>, b: nat) {
    exists i :: 0 <= i < |inodes| && b in Part(blocks, inodes[i])
  }

  function Bytes(blocks: seq<Block>, ino: Inode): seq<byte> {
    if |blocks| == BLOCK_NUM && WellFormed(ino) && OnDisk(FileBlocks(blocks, ino)) then Content(blocks, ino) else []
  }

  /** The live files and what they hold: what the whole layer stands for. */
  function Files(blocks: seq<Block>, inodes: seq<Inode>): map<nat, seq<byte>> {
    map i: nat | i < |inodes| && inodes[i].kind != 0 :: Bytes(blocks, inodes[i])
  }

  /** The same blocks give the same bytes. */
  lemma BytesSame(blocks: seq<Block>, blocks': seq<Block>, used: set<nat>, ino: Inode, except: set<nat>)
    requires BitmapOk(blocks, used) && FileOk(blocks, used, ino) && SameData(blocks, blocks', except) && ino.kind != 0
    requires Part(blocks, ino) !! except
    ensures Bytes(blocks', ino) == Bytes(blocks, ino)
  {
    FileSame(blocks, blocks', used, ino, except);
    FileOnDisk(blocks, used, ino);
    var nums := FileBlocks(blocks, ino);
    if !Fresh(ino) {
      forall k | 0 <= k < |nums| ensures blocks[nums[k]] == blocks'[nums[k]] {
        assert nums[k] in Owned(blocks, ino);
      }
      JoinedSame(blocks, blocks', nums);
    }
  }

  // ---- One file is replaced -------------------------------------------------------------------------------------------

  lemma OthersUntouched(blocks: seq<Block>, used: set<nat>, inodes: seq<Inode>, leaked: set<nat>, i: nat, j: nat,
                        blocks': seq<Block>, taken: set<nat>)
    requires FilesOk(blocks, used, inodes, leaked) && i < |inodes| && j < |inodes| && i != j
    requires SameData(blocks, blocks', taken)
    requires taken !! used - Part(blocks, inodes[i])
    ensures Part(blocks', inodes[j]) == Part(blocks, inodes[j]) && Part(blocks, inodes[j]) <= used - Part(blocks, inodes[i])
    ensures inodes[j].kind != 0 ==>
      FileOk(blocks', Part(blocks, inodes[j]), inodes[j]) && Bytes(blocks', inodes[j]) == Bytes(blocks, inodes[j])
  {
    if inodes[j].kind != 0 {
      assert Apart(blocks, inodes, i, j);
      FileSame(blocks, blocks', used, inodes[j], taken);
      BytesSame(blocks, blocks', used, inodes[j], taken);
    }
  }

  /** The blocks of the old file that are given back. */
  function GivenBack(blocks: seq<Block>, ino: Inode): set<nat>
    requires |blocks| == BLOCK_NUM && WellFormed(ino)
  {
    ToSet(FileBlocks(blocks, ino))
  }

  /** An inode is set, its old blocks are given back except for an indirect one, and the new ones were free then. */
  ghost predicate Replaces(blocks: seq<Block>, used: set<nat>, old_: Inode, new_: Inode, blocks': seq<Block>, used': set<nat>)
    requires |blocks| == BLOCK_NUM && WellFormed(old_)
  {
    && Taken(blocks, used - GivenBack(blocks, old_), blocks', used', Part(blocks', new_))
    && (new_.kind != 0 ==> FileOk(blocks', used', new_))
  }

  /** What was the file's: its blocks given back, and its indirect block. */
  lemma PartIs(blocks: seq<Block>, used: set<nat>, ino: Inode)
    requires BitmapOk(blocks, used) && FileOk(blocks, used, ino) && ino.kind != 0
    ensures used - Part(blocks, ino) == used - GivenBack(blocks, ino) - IndirectBlock(ino)
    ensures IndirectBlock(ino) <= Part(blocks, ino) && IndirectBlock(ino) <= used - GivenBack(blocks, ino)
  {
    if Fresh(ino) {
      assert FileBlocks(blocks, ino) == [0];
      assert GivenBack(blocks, ino) == {0};
      assert 0 !in used;
    }
  }

  /** The rest of the disk after a replacement, seen from another file. */
  ghost predicate Kept(blocks: seq<Block>, used: set<nat>, inodes: seq<Inode>, i: nat, j: nat, blocks': seq<Block>, used': set<nat>)
    requires i < |inodes| && j < |inodes|
  {
    && Part(blocks', inodes[j]) == Part(blocks, inodes[j])
    && Part(blocks, inodes[j]) <= used - Part(blocks, inodes[i])
    && (inodes[j].kind != 0 ==> FileOk(blocks', used', inodes[j]) && Bytes(blocks', inodes[j]) == Bytes(blocks, inodes[j]))
  }

  lemma OthersKept(blocks: seq<Block>, used: set<nat>, inodes: seq<Inode>, leaked: set<nat>, i: nat, ino: Inode,
                   blocks': seq<Block>, used': set<nat>)
    requires FilesOk(blocks, used, inodes, leaked) && i < |inodes| && inodes[i].kind != 0
    requires Replaces(blocks, used, inodes[i], ino, blocks', used')
    ensures forall j: nat | j < |inodes| && j != i :: Kept(blocks, used, inodes, i, j, blocks', used')
    ensures used - Part(blocks, inodes[i]) <= used'
    ensures Part(blocks', ino) !! used - Part(blocks, inodes[i])
  {
    PartIs(blocks, used, inodes[i]);
    forall j: nat | j < |inodes| && j != i ensures Kept(blocks, used, inodes, i, j, blocks', used') {
      OthersUntouched(blocks, used, inodes, leaked, i, j, blocks', Part(blocks', ino));
    }
  }

  lemma StillApart(blocks: seq<Block>, used: set<nat>, inodes: seq<Inode>, leaked: set<nat>, i: nat, ino: Inode,
                   blocks': seq<Block>, used': set<nat>, j: nat, k: nat)
    requires FilesOk(blocks, used, inodes, leaked) && i < |inodes| && j < |inodes| && k < |inodes|
    requires j != i ==> Kept(blocks, used, inodes, i, j, blocks', used')
    requires k != i ==> Kept(blocks, used, inodes, i, k, blocks', used')
    requires Part(blocks', ino) !! used - Part(blocks, inodes[i])
    ensures Apart(blocks', inodes[i := ino], j, k)
  {
    assert Apart(blocks, inodes, j, k);
  }

  /** A block in use is still somebody's. */
  lemma StillOwned(blocks: seq<Block>, used: set<nat>, inodes: seq<Inode>, leaked: set<nat>, i: nat, ino: Inode,
                   blocks': seq<Block>, used': set<nat>, b: nat)
    requires FilesOk(blocks, used, inodes, leaked) && i < |inodes| && inodes[i].kind != 0
    requires Replaces(blocks, used, inodes[i], ino, blocks', used')
    requires forall j: nat | j < |inodes| && j != i :: Kept(blocks, used, inodes, i, j, blocks', used')
    requires b in used' && b !in leaked + IndirectBlock(inodes[i])
    ensures SomebodysBlock(blocks', inodes[i := ino], b)
  {
    var inodes' := inodes[i := ino];
    if b in Part(blocks', ino) {
      assert inodes'[i] == ino;
    } else {
      PartIs(blocks, used, inodes[i]);
      assert b in used - Part(blocks, inodes[i]);
      assert SomebodysBlock(blocks, inodes, b);
      var j :| 0 <= j < |inodes| && b in Part(blocks, inodes[j]);
      assert Kept(blocks, used, inodes, i, j, blocks', used');
      assert b in Part(blocks', inodes'[j]);
    }
  }

  lemma StillLeaked(blocks: seq<Block>, used: set<nat>, inodes: seq<Inode>, leaked: set<nat>, i: nat, ino: Inode,
                    blocks': seq<Block>, used': set<nat>)
    requires FilesOk(blocks, used, inodes, leaked) && i < |inodes| && inodes[i].kind != 0
    requires Replaces(blocks, used, inodes[i], ino, blocks', used')
    requires forall j: nat | j < |inodes| && j != i :: Kept(blocks, used, inodes, i, j, blocks', used')
    ensures LeakOk(blocks', used', inodes[i := ino], leaked + IndirectBlock(inodes[i]))
  {
    var inodes', leaked' := inodes[i := ino], leaked + IndirectBlock(inodes[i]);
    PartIs(blocks, used, inodes[i]);
    assert NotOf(blocks, inodes[i], leaked);
    assert leaked' <= used - GivenBack(blocks, inodes[i]);
    forall j: nat | j < |inodes| ensures NotOf(blocks', inodes'[j], leaked') {
      if j != i {
        assert Kept(blocks, used, inodes, i, j, blocks', used');
        assert NotOf(blocks, inodes[j], leaked);
      }
    }
  }

  lemma StillOk(blocks: seq<Block>, used: set<nat>, inodes: seq<Inode>, i: nat, ino: Inode, blocks': seq<Block>, used': set<nat>)
    requires i < |inodes| && forall j: nat | j < |inodes| && j != i :: Kept(blocks, used, inodes, i, j, blocks', used')
    requires ino.kind != 0 ==> FileOk(blocks', used', ino)
    ensures EachOk(blocks', used', inodes[i := ino])
  {
    var inodes' := inodes[i := ino];
    forall j: nat | j < |inodes| && inodes'[j].kind != 0 ensures FileOk(blocks', used', inodes'[j]) {
      if j != i {
        assert Kept(blocks, used, inodes, i, j, blocks', used');
      }
    }
  }

  lemma AllStillApart(blocks: seq<Block>, used: set<nat>, inodes: seq<Inode>, leaked: set<nat>, i: nat, ino: Inode,
                      blocks': seq<Block>, used': set<nat>)
    requires FilesOk(blocks, used, inodes, leaked) && i < |inodes|
    requires forall j: nat | j < |inodes| && j != i :: Kept(blocks, used, inodes, i, j, blocks', used')
    requires Part(blocks', ino) !! used - Part(blocks, inodes[i])
    ensures AllApart(blocks', inodes[i := ino])
  {
    var inodes' := inodes[i := ino];
    forall j: nat, k: nat | j < |inodes'| && k < |inodes'| ensures Apart(blocks', inodes', j, k) {
      StillApart(blocks, used, inodes, leaked, i, ino, blocks', used', j, k);
    }
  }

  lemma AllStillOwned(blocks: seq<Block>, used: set<nat>, inodes: seq<Inode>, leaked: set<nat>, i: nat, ino: Inode,
                      blocks': seq<Block>, used': set<nat>)
    requires FilesOk(blocks, used, inodes, leaked) && i < |inodes| && inodes[i].kind != 0
    requires Replaces(blocks, used, inodes[i], ino, blocks', used')
    requires forall j: nat | j < |inodes| && j != i :: Kept(blocks, used, inodes, i, j, blocks', used')
    ensures AllOwned(blocks', used', inodes[i := ino], leaked + IndirectBlock(inodes[i]))
  {
    forall b | b in used' && b !in leaked + IndirectBlock(inodes[i]) ensures SomebodysBlock(blocks', inodes[i := ino], b) {
      StillOwned(blocks, used, inodes, leaked, i, ino, blocks', used', b);
    }
  }

  lemma Replaced(blocks: seq<Block>, used: set<nat>, inodes: seq<Inode>, leaked: set<nat>, i: nat, ino: Inode,
                 blocks': seq<Block>, used': set<nat>)
    requires FilesOk(blocks, used, inodes, leaked) && i < |inodes| && inodes[i].kind != 0
    requires Replaces(blocks, used, inodes[i], ino, blocks', used')
    ensures FilesOk(blocks', used', inodes[i := ino], leaked + IndirectBlock(inodes[i]))
    ensures Files(blocks', inodes[i := ino]) ==
            if ino.kind != 0 then Files(blocks, inodes)[i := Bytes(blocks', ino)] else Files(blocks, inodes) - {i}
  {
    OthersKept(blocks, used, inodes, leaked, i, ino, blocks', used');
    StillOk(blocks, used, inodes, i, ino, blocks', used');
    AllStillApart(blocks, used, inodes, leaked, i, ino, blocks', used');
    StillLeaked(blocks, used, inodes, leaked, i, ino, blocks', used');
    AllStillOwned(blocks, used, inodes, leaked, i, ino, blocks', used');
    FilesReplaced(blocks, used, inodes, i, ino, blocks', used');
  }

  lemma FilesReplaced(blocks: seq<Block>, used: set<nat>, inodes: seq<Inode>, i: nat, ino: Inode, blocks': seq<Block>, used': set<nat>)
    requires i < |inodes| && forall j: nat | j < |inodes| && j != i :: Kept(blocks, used, inodes, i, j, blocks', used')
    ensures Files(blocks', inodes[i := ino]) ==
            if ino.kind != 0 then Files(blocks, inodes)[i := Bytes(blocks', ino)] else Files(blocks, inodes) - {i}
  {
    var inodes' := inodes[i := ino];
    forall j: nat | j < |inodes| && j != i && inodes[j].kind != 0 ensures Files(blocks', inodes')[j] == Files(blocks, inodes)[j] {
      assert Kept(blocks, used, inodes, i, j, blocks', used');
    }
  }

  // ---- A new file ---------------------------------------------------------------------------------------------------

  lemma Created(blocks: seq<Block>, used: set<nat>, inodes: seq<Inode>, leaked: set<nat>, i: nat, kind: nat)
    requires FilesOk(blocks, used, inodes, leaked) && i < |inodes| && inodes[i].kind == 0 && kind != 0
    ensures FilesOk(blocks, used, inodes[i := Inode(kind, 0, NO_BLOCKS)], leaked)
    ensures Files(blocks, inodes[i := Inode(kind, 0, NO_BLOCKS)]) == Files(blocks, inodes)[i := []]
  {
    var ino := Inode(kind, 0, NO_BLOCKS);
    var inodes' := inodes[i := ino];
    assert FileBlocks(blocks, ino) == [0] && Bytes(blocks, ino) == [];
    forall j: nat | j < |inodes| ensures Part(blocks, inodes'[j]) == Part(blocks, inodes[j]) {
    }
    forall j: nat, k: nat | j < |inodes'| && k < |inodes'| ensures Apart(blocks, inodes', j, k) {
      assert Apart(blocks, inodes, j, k);
    }
    forall j: nat | j < |inodes'| ensures NotOf(blocks, inodes'[j], leaked) {
      assert NotOf(blocks, inodes[j], leaked);
    }
    forall b | b in used && b !in leaked ensures SomebodysBlock(blocks, inodes', b) {
      assert SomebodysBlock(blocks, inodes, b);
      var j :| 0 <= j < |inodes| && b in Part(blocks, inodes[j]);
      assert b in Part(blocks, inodes'[j]);
    }
  }

  /** A data block is marked in the bitmap exactly if one live file has it, or if it was leaked. */
  lemma BitmapIsUnion(blocks: seq<Block>, used: set<nat>, inodes: seq<Inode>, leaked: set<nat>, b: nat)
    requires FilesOk(blocks, used, inodes, leaked) && b < BLOCK_NUM && IsData(b)
    ensures Marked(blocks, b) <==> SomebodysBlock(blocks, inodes, b) || b in leaked
    ensures SomebodysBlock(blocks, inodes, b) ==>
      b !in leaked &&
      exists i: nat :: i < |inodes| && b in Part(blocks, inodes[i]) &&
                       forall j: nat | j < |inodes| && b in Part(blocks, inodes[j]) :: j == i
  {
    if SomebodysBlock(blocks, inodes, b) {
      var i: nat :| i < |inodes| && b in Part(blocks, inodes[i]);
      assert NotOf(blocks, inodes[i], leaked) && b in used;
      forall j: nat | j < |inodes| && b in Part(blocks, inodes[j]) ensures j == i {
        assert Apart(blocks, inodes, i, j);
      }
    }
  }
}
