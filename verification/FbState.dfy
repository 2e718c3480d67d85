/** String objects and the blocks they hold: what every operation of fbstring_core keeps. */
module FbState {
  import opened FbLayout

  /** A malloc'ed block: the characters of a medium string, or a reference count before those of large ones. */
  datatype Block = Plain(chars: seq<Byte>) | Counted(refs: nat, chars: seq<Byte>)

  /** The objects whose pointer word leads to the block at p. */
  ghost function Handles(cores: map<nat, Core>, p: nat): set<nat> {
    set id | id in cores && !IsSmall(cores[id]) && Data(cores[id]) == p
  }

  predicate SmallOk(c: Core) {
    c[MAX_SMALL] <= MAX_SMALL && c[Size(c)] == 0
  }

  /** A heap core and its block agree on category, capacity, size and terminator. */
  predicate Fits(c: Core, b: Block) {
    && !IsSmall(c) && Category(c) == (if b.Plain? then MEDIUM else LARGE)
    && Size(c) <= Capacity(c) && |b.chars| == Capacity(c) + 1 && b.chars[Size(c)] == 0
  }

  predicate CoreOk(c: Core, blocks: map<nat, Block>) {
    if IsSmall(c) then SmallOk(c) else Data(c) in blocks && Fits(c, blocks[Data(c)])
  }

  /** Every block has its holders counted; only large blocks have several, and those look the same. */
  ghost predicate BlockOk(p: nat, b: Block, cores: map<nat, Core>) {
    && (if b.Plain? then |Handles(cores, p)| == 1 else b.refs == |Handles(cores, p)| > 0)
    && (forall i, j :: i in Handles(cores, p) && j in Handles(cores, p) ==> cores[i] == cores[j])
  }

  ghost predicate Valid(cores: map<nat, Core>, blocks: map<nat, Block>) {
    && (forall id :: id in cores ==> CoreOk(cores[id], blocks))
    && (forall p :: p in blocks ==> BlockOk(p, blocks[p], cores))
  }

  function View(c: Core, blocks: map<nat, Block>): seq<Byte>
    requires CoreOk(c, blocks)
  {
    if IsSmall(c) then c[..Size(c)] else blocks[Data(c)].chars[..Size(c)]
  }

  /** What each string object holds. */
  ghost function Contents(cores: map<nat, Core>, blocks: map<nat, Block>): map<nat, seq<Byte>>
    requires Valid(cores, blocks)
  {
    map id | id in cores :: View(cores[id], blocks)
  }

  /** Nobody else looks at the characters of this object. */
  predicate Exclusive(c: Core, blocks: map<nat, Block>)
    requires CoreOk(c, blocks)
  {
    IsSmall(c) || blocks[Data(c)].Plain? || blocks[Data(c)].refs == 1
  }

  /** The blocks once the object with this core is gone: free, or decrement and free at zero. */
  function Released(blocks: map<nat, Block>, c: Core): map<nat, Block>
    requires CoreOk(c, blocks)
  {
    if IsSmall(c) then blocks
    else
      var b := blocks[Data(c)];
      if b.Plain? || b.refs <= 1 then blocks - {Data(c)}
      else blocks[Data(c) := Counted(b.refs - 1, b.chars)]
  }

  lemma HandlesUpdate(cores: map<nat, Core>, id: nat, c: Core, p: nat)
    ensures Handles(cores[id := c], p)
            == Handles(cores, p) - {id} + if !IsSmall(c) && Data(c) == p then {id} else {}
  {
    hide IsSmall, Data;
  }

  lemma HandleMeans(cores: map<nat, Core>, id: nat, p: nat)
    ensures id in Handles(cores, p) <==> id in cores && !IsSmall(cores[id]) && Data(cores[id]) == p
    ensures Handles(cores, p) <= cores.Keys
  {}

  lemma HandlesRemove(cores: map<nat, Core>, id: nat, p: nat)
    ensures Handles(cores - {id}, p) == Handles(cores, p) - {id}
  {
    hide IsSmall, Data;
  }

  lemma OnlyHandle(s: set<nat>, i: nat, j: nat)
    requires |s| == 1 && i in s && j in s
    ensures i == j
  {
    assert |s - {i}| == 0;
  }

  /** The block at p is still there, of the same kind and with the same characters. */
  predicate Kept(blocks: map<nat, Block>, after: map<nat, Block>, p: nat) {
    p in blocks && p in after && after[p].chars == blocks[p].chars && after[p].Plain? == blocks[p].Plain?
  }

  lemma KeptView(c: Core, blocks: map<nat, Block>, after: map<nat, Block>)
    requires CoreOk(c, blocks) && (IsSmall(c) || Kept(blocks, after, Data(c)))
    ensures CoreOk(c, after) && View(c, after) == View(c, blocks)
  {
    hide IsSmall, Data, Category, Size, Capacity;
  }

  /** One object gets a new core: all the others keep theirs and what it leads to. */
  lemma Replaced(cores: map<nat, Core>, blocks: map<nat, Block>, id: nat, c: Core, after: map<nat, Block>)
    requires Valid(cores, blocks) && CoreOk(c, after)
    requires forall other :: other in cores && other != id && !IsSmall(cores[other]) ==>
               Kept(blocks, after, Data(cores[other]))
    requires forall p :: p in after ==> BlockOk(p, after[p], cores[id := c])
    ensures Valid(cores[id := c], after)
    ensures Contents(cores[id := c], after) == Contents(cores, blocks)[id := View(c, after)]
  {
    hide IsSmall, Data, CoreOk, BlockOk, View, Kept;
    forall other | other in cores && other != id
      ensures CoreOk(cores[other], after) && View(cores[other], after) == View(cores[other], blocks)
    {
      KeptView(cores[other], blocks, after);
    }
  }

  /** A block that others hold survives with its characters when one object lets go. */
  lemma ReleasedKeeps(cores: map<nat, Core>, blocks: map<nat, Block>, id: nat, other: nat)
    requires Valid(cores, blocks) && id in cores && other in cores && other != id && !IsSmall(cores[other])
    ensures Kept(blocks, Released(blocks, cores[id]), Data(cores[other]))
  {
    hide IsSmall, Data, Category, Size, Capacity;
    var p := Data(cores[other]);
    if !IsSmall(cores[id]) && Data(cores[id]) == p {
      var s := Handles(cores, p);
      assert id in s && other in s;
      assert BlockOk(p, blocks[p], cores);
      if |s| == 1 {
        OnlyHandle(s, id, other);
      }
    }
  }

  lemma ReleasedBlock(cores: map<nat, Core>, blocks: map<nat, Block>, id: nat, p: nat)
    requires Valid(cores, blocks) && id in cores && p in Released(blocks, cores[id])
    ensures BlockOk(p, Released(blocks, cores[id])[p], cores - {id})
  {
    hide IsSmall, Data, Category, Size, Capacity, Fits, Handles, BlockOk;
    HandleMeans(cores, id, p);
    if id in Handles(cores, p) {
      OneHandleLess(cores, id, p, blocks[p]);
    } else {
      HandleElsewhere(cores, id, p, blocks[p]);
    }
  }

  lemma OneHandleLess(cores: map<nat, Core>, id: nat, p: nat, b: Block)
    requires BlockOk(p, b, cores) && id in Handles(cores, p)
    ensures b.Counted? && b.refs > 1 ==> BlockOk(p, Counted(b.refs - 1, b.chars), cores - {id})
  {
    HandleMeans(cores, id, p);
    HandlesRemove(cores, id, p);
    hide Handles;
    assert |Handles(cores, p) - {id}| == |Handles(cores, p)| - 1;
  }

  lemma HandleElsewhere(cores: map<nat, Core>, id: nat, p: nat, b: Block)
    requires BlockOk(p, b, cores) && id !in Handles(cores, p)
    ensures BlockOk(p, b, cores - {id})
  {
    HandleMeans(cores, id, p);
    HandlesRemove(cores, id, p);
    hide Handles;
    assert Handles(cores, p) - {id} == Handles(cores, p);
  }

  /** Letting go of an object keeps everything the others hold. */
  lemma ReleaseOk(cores: map<nat, Core>, blocks: map<nat, Block>, id: nat)
    requires Valid(cores, blocks) && id in cores
    ensures var after := Released(blocks, cores[id]);
            Valid(cores - {id}, after) && Contents(cores - {id}, after) == Contents(cores, blocks) - {id}
  {
    hide IsSmall, Data, Category, Size, Capacity, BlockOk, Released, Kept;
    var after := Released(blocks, cores[id]);
    forall other | other in cores - {id}
      ensures CoreOk(cores[other], after) && View(cores[other], after) == View(cores[other], blocks)
    {
      if !IsSmall(cores[other]) {
        ReleasedKeeps(cores, blocks, id, other);
      }
      KeptView(cores[other], blocks, after);
    }
    forall p | p in after
      ensures BlockOk(p, after[p], cores - {id})
    {
      ReleasedBlock(cores, blocks, id, p);
    }
  }

  /** An object whose handle on p neither comes nor goes does not change that block's standing. */
  lemma UntouchedBlock(cores: map<nat, Core>, id: nat, c: Core, p: nat, b: Block)
    requires BlockOk(p, b, cores) && id !in Handles(cores, p) && (IsSmall(c) || Data(c) != p)
    ensures BlockOk(p, b, cores[id := c])
  {
    HandlesUpdate(cores, id, c, p);
    hide IsSmall, Data;
    assert Handles(cores, p) - {id} + {} == Handles(cores, p);
  }

  lemma OwnBlock(cores: map<nat, Core>, id: nat, c: Core, q: nat, b: Block)
    requires Handles(cores, q) <= {id} && !IsSmall(c) && Data(c) == q && (b.Plain? || b.refs == 1)
    ensures BlockOk(q, b, cores[id := c])
  {
    HandlesUpdate(cores, id, c, q);
    hide IsSmall, Data;
    assert Handles(cores[id := c], q) == {id};
  }

  lemma AddSmall(cores: map<nat, Core>, blocks: map<nat, Block>, id: nat, c: Core)
    requires Valid(cores, blocks) && id !in cores && IsSmall(c) && SmallOk(c)
    ensures Valid(cores[id := c], blocks)
    ensures Contents(cores[id := c], blocks) == Contents(cores, blocks)[id := c[..Size(c)]]
  {
    hide IsSmall, Data, Category, Size, Capacity, BlockOk;
    forall p | p in blocks
      ensures BlockOk(p, blocks[p], cores[id := c])
    {
      UntouchedBlock(cores, id, c, p, blocks[p]);
    }
    Replaced(cores, blocks, id, c, blocks);
  }

  lemma NoHandles(cores: map<nat, Core>, blocks: map<nat, Block>, q: nat)
    requires Valid(cores, blocks) && q !in blocks
    ensures Handles(cores, q) == {}
  {
    hide IsSmall, Data, Category, Size, Capacity, BlockOk;
    forall id | id in cores
      ensures id !in Handles(cores, q)
    {
      assert CoreOk(cores[id], blocks);
    }
  }

  lemma FitsHeap(c: Core, b: Block)
    requires Fits(c, b)
    ensures !IsSmall(c) && Size(c) < |b.chars|
  {}

  /** A new object on a block of its own. */
  lemma AddFresh(cores: map<nat, Core>, blocks: map<nat, Block>, id: nat, c: Core, q: nat, b: Block)
    requires Valid(cores, blocks) && id !in cores && q !in blocks && Data(c) == q && Fits(c, b) && (b.Plain? || b.refs == 1)
    ensures Size(c) <= |b.chars| && Valid(cores[id := c], blocks[q := b])
    ensures Contents(cores[id := c], blocks[q := b]) == Contents(cores, blocks)[id := b.chars[..Size(c)]]
  {
    FitsHeap(c, b);
    hide IsSmall, Data, Category, Size, Capacity, Fits, BlockOk, Handles;
    NoHandles(cores, blocks, q);
    var after := blocks[q := b];
    forall p | p in after
      ensures BlockOk(p, after[p], cores[id := c])
    {
      if p == q {
        OwnBlock(cores, id, c, q, b);
      } else {
        NotAHandle(cores, id, p);
        UntouchedBlock(cores, id, c, p, blocks[p]);
      }
    }
    Replaced(cores, blocks, id, c, after);
  }

  lemma NotAHandle(cores: map<nat, Core>, id: nat, p: nat)
    requires id !in cores || IsSmall(cores[id]) || Data(cores[id]) != p
    ensures id !in Handles(cores, p)
  {}

  lemma LargeBlock(c: Core, blocks: map<nat, Block>)
    requires CoreOk(c, blocks) && Category(c) != 0
    ensures !IsSmall(c) && Data(c) in blocks && (Category(c) == LARGE <==> blocks[Data(c)].Counted?)
  {
    hide Data, Capacity;
  }

  /** A second object on a large block: the core is copied and the count goes up. */
  lemma AddShared(cores: map<nat, Core>, blocks: map<nat, Block>, id: nat, from: nat)
    requires Valid(cores, blocks) && id !in cores && from in cores && CoreOk(cores[from], blocks)
    requires !IsSmall(cores[from]) && blocks[Data(cores[from])].Counted?
    ensures var p := Data(cores[from]); var b := blocks[p];
            var after := blocks[p := Counted(b.refs + 1, b.chars)];
            && Valid(cores[id := cores[from]], after)
            && Contents(cores[id := cores[from]], after) == Contents(cores, blocks)[id := View(cores[from], blocks)]
  {
    hide IsSmall, Data, Category, Size, Capacity, BlockOk, Handles;
    var c, p := cores[from], Data(cores[from]);
    var b := blocks[p];
    var after := blocks[p := Counted(b.refs + 1, b.chars)];
    forall q | q in after
      ensures BlockOk(q, after[q], cores[id := c])
    {
      if q == p {
        SharedBlock(cores, id, from, p, b);
      } else {
        NotAHandle(cores, id, q);
        UntouchedBlock(cores, id, c, q, blocks[q]);
      }
    }
    KeptView(c, blocks, after);
    Replaced(cores, blocks, id, c, after);
  }

  lemma SharedBlock(cores: map<nat, Core>, id: nat, from: nat, p: nat, b: Block)
    requires BlockOk(p, b, cores) && b.Counted? && id !in cores
    requires from in cores && !IsSmall(cores[from]) && Data(cores[from]) == p
    ensures BlockOk(p, Counted(b.refs + 1, b.chars), cores[id := cores[from]])
  {
    hide IsSmall, Data;
    HandlesUpdate(cores, id, cores[from], p);
    assert from in Handles(cores, p);
    assert Handles(cores[id := cores[from]], p) == Handles(cores, p) + {id};
  }

  /** Writing the characters or the size of an object that owns its block alone. */
  lemma Rewrite(cores: map<nat, Core>, blocks: map<nat, Block>, id: nat, c: Core, b: Block)
    requires Valid(cores, blocks) && id in cores && !IsSmall(cores[id])
    requires CoreOk(cores[id], blocks) && Exclusive(cores[id], blocks)
    requires Data(c) == Data(cores[id]) && Fits(c, b)
    requires b.Plain? == blocks[Data(c)].Plain? && (b.Plain? || b.refs == 1)
    ensures Size(c) <= |b.chars|
    ensures var after := blocks[Data(c) := b];
            && Valid(cores[id := c], after)
            && Contents(cores[id := c], after) == Contents(cores, blocks)[id := b.chars[..Size(c)]]
  {
    FitsHeap(c, b);
    hide IsSmall, Data, Category, Size, Capacity, Fits, BlockOk, Handles;
    var p := Data(c);
    var after := blocks[p := b];
    SoleHandle(cores, id, p, blocks[p]);
    forall q | q in after
      ensures BlockOk(q, after[q], cores[id := c])
    {
      if q == p {
        OwnBlock(cores, id, c, p, b);
      } else {
        NotAHandle(cores, id, q);
        UntouchedBlock(cores, id, c, q, blocks[q]);
      }
    }
    forall other | other in cores && other != id && !IsSmall(cores[other])
      ensures Kept(blocks, after, Data(cores[other]))
    {
      assert CoreOk(cores[other], blocks);
      AHandle(cores, other);
    }
    Replaced(cores, blocks, id, c, after);
  }

  /** The blocks once the object id, if there is one, has let go of what it held. */
  function Vacated(cores: map<nat, Core>, blocks: map<nat, Block>, id: nat): map<nat, Block>
    requires id in cores ==> CoreOk(cores[id], blocks)
  {
    if id in cores then Released(blocks, cores[id]) else blocks
  }

  /** The object takes up a new block and lets go of the old one. */
  lemma InstallOk(cores: map<nat, Core>, blocks: map<nat, Block>, id: nat, c: Core, q: nat, b: Block)
    requires Valid(cores, blocks) && q !in blocks && Data(c) == q && Fits(c, b) && (b.Plain? || b.refs == 1)
    ensures Size(c) <= |b.chars|
    ensures var after := Vacated(cores, blocks, id)[q := b];
            && Valid(cores[id := c], after)
            && Contents(cores[id := c], after) == Contents(cores, blocks)[id := b.chars[..Size(c)]]
  {
    hide Data, Size, Fits, Handles, BlockOk, CoreOk;
    if id in cores {
      ReleaseOk(cores, blocks, id);
      NotReleased(blocks, cores[id], q);
      AddFresh(cores - {id}, Released(blocks, cores[id]), id, c, q, b);
      assert (cores - {id})[id := c] == cores[id := c];
    } else {
      AddFresh(cores, blocks, id, c, q, b);
    }
  }

  lemma NotReleased(blocks: map<nat, Block>, c: Core, q: nat)
    requires CoreOk(c, blocks) && q !in blocks
    ensures q !in Released(blocks, c)
  {}

  lemma InstallSmallOk(cores: map<nat, Core>, blocks: map<nat, Block>, id: nat, c: Core)
    requires Valid(cores, blocks) && IsSmall(c) && SmallOk(c)
    ensures var after := Vacated(cores, blocks, id);
            && Valid(cores[id := c], after)
            && Contents(cores[id := c], after) == Contents(cores, blocks)[id := c[..Size(c)]]
  {
    hide Data, Size, IsSmall, Handles, BlockOk, CoreOk;
    if id in cores {
      ReleaseOk(cores, blocks, id);
      AddSmall(cores - {id}, Released(blocks, cores[id]), id, c);
      assert (cores - {id})[id := c] == cores[id := c];
    } else {
      AddSmall(cores, blocks, id, c);
    }
  }

  lemma AHandle(cores: map<nat, Core>, id: nat)
    requires id in cores && !IsSmall(cores[id])
    ensures id in Handles(cores, Data(cores[id]))
  {}

  lemma SoleHandle(cores: map<nat, Core>, id: nat, p: nat, b: Block)
    requires BlockOk(p, b, cores) && (b.Plain? || b.refs == 1)
    requires id in cores && !IsSmall(cores[id]) && Data(cores[id]) == p
    ensures Handles(cores, p) == {id}
  {
    AHandle(cores, id);
    hide IsSmall, Data;
    var s := Handles(cores, p);
    forall j | j in s
      ensures j == id
    {
      OnlyHandle(s, id, j);
    }
  }

  /** The object's content under a new name; the old one is reset to the empty string. */
  lemma MoveOk(cores: map<nat, Core>, blocks: map<nat, Block>, id: nat, from: nat, empty: Core)
    requires Valid(cores, blocks) && id !in cores && from in cores && CoreOk(cores[from], blocks)
    requires IsSmall(empty) && SmallOk(empty) && Size(empty) == 0
    ensures var moved := cores[id := cores[from]][from := empty];
            && Valid(moved, blocks)
            && Contents(moved, blocks) == Contents(cores, blocks)[id := View(cores[from], blocks)][from := []]
  {
    hide IsSmall, Data, Category, Size, Capacity, SmallOk, BlockOk, Handles;
    var moved := cores[id := cores[from]][from := empty];
    forall p | p in blocks
      ensures BlockOk(p, blocks[p], moved)
    {
      MovedBlock(cores, id, from, empty, p, blocks[p]);
    }
  }

  lemma MovedBlock(cores: map<nat, Core>, id: nat, from: nat, empty: Core, p: nat, b: Block)
    requires BlockOk(p, b, cores) && id !in cores && from in cores && IsSmall(empty)
    ensures BlockOk(p, b, cores[id := cores[from]][from := empty])
  {
    HandleMeans(cores, id, p);
    HandleMeans(cores, from, p);
    HandleMeans(cores[id := cores[from]], from, p);
    hide IsSmall, Data, Handles;
    var added := cores[id := cores[from]];
    if from in Handles(cores, p) {
      HandlesUpdate(cores, id, cores[from], p);
      HandlesUpdate(added, from, empty, p);
      RenamedHandle(Handles(cores, p), id, from, Handles(added[from := empty], p));
    } else {
      UntouchedBlock(cores, id, cores[from], p, b);
      UntouchedBlock(added, from, empty, p, b);
    }
  }

  lemma RenamedHandle(s: set<nat>, id: nat, from: nat, t: set<nat>)
    requires from in s && id !in s && t == s - {id} + {id} - {from} + {}
    ensures |t| == |s| && t == s - {from} + {id}
  {
    assert |s - {from}| == |s| - 1;
    assert t == s - {from} + {id};
  }

  /** A block goes exactly when the object that lets go was the only one holding it. */
  lemma FreedWithLast(cores: map<nat, Core>, blocks: map<nat, Block>, id: nat, p: nat)
    requires Valid(cores, blocks) && id in cores && p in blocks
    ensures p !in Released(blocks, cores[id]) <==> Handles(cores, p) == {id}
  {
    hide IsSmall, Data, Category, Size, Capacity, Fits;
    assert BlockOk(p, blocks[p], cores);
    if !IsSmall(cores[id]) && Data(cores[id]) == p && p !in Released(blocks, cores[id]) {
      SoleHandle(cores, id, p, blocks[p]);
    }
  }

  /** When no string is left, no block is. */
  lemma NoLeak(cores: map<nat, Core>, blocks: map<nat, Block>)
    requires Valid(cores, blocks) && cores == map[]
    ensures blocks == map[]
  {
    forall p | p in blocks
      ensures Handles(cores, p) != {}
    {
      assert BlockOk(p, blocks[p], cores);
    }
    assert blocks.Keys == {};
  }
}
