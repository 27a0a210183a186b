/**
 The 4096 bytes behind a page of the tree. Reading a page as slots, as the tree does, is exact: every
 setter changes the one slot it is named for, and the slots are those whose bytes lie inside the page.
 */
module BPlusTreeNodes {
  import opened ByteCodec
  import opened BPlusTreeModel
  import opened BPlusTreePages
  import K = IndexKeys
  import T = BPlusTrees

  /** What the accessors name: header fields, and slots of either kind of node. */
  datatype Field =
    | Kind | Count | Parent | Next | Prev | Self
    | Key(leaf: bool, i: nat) | Row(i: nat) | Child(i: nat)

  function Start(f: Field): nat {
    match f
    case Kind => 0
    case Count => 1
    case Parent => 3
    case Next => 7
    case Prev => 11
    case Self => 15
    case Key(leaf, i) => DATA_START + if leaf then i * LEAF_ENTRY_SIZE else i * INTERNAL_ENTRY_SIZE + 4
    case Row(i) => DATA_START + i * LEAF_ENTRY_SIZE + KEY_SIZE
    case Child(i) => DATA_START + i * INTERNAL_ENTRY_SIZE
  }

  function Size(f: Field): nat {
    match f
    case Kind => 1
    case Count => 2
    case Key(_, _) => KEY_SIZE
    case Row(_) => 6
    case _ => 4
  }

  /** The fields of a leaf, or of an internal node. */
  predicate Of(f: Field, leaf: bool) {
    match f
    case Key(l, i) => l == leaf && i < if leaf then LEAF_ORDER else INTERNAL_ORDER
    case Row(i) => leaf && i < LEAF_ORDER
    case Child(i) => !leaf && i <= INTERNAL_ORDER
    case _ => true
  }

  /** The documented layout: the header in the first 20 bytes, then entries of 134 bytes, or children and keys in turn. */
  lemma Layout(i: nat)
    ensures PAGE_SIZE == 4096 && LEAF_ORDER == 30 && INTERNAL_ORDER == 30
    ensures Start(Kind) == 0 && Start(Count) == 1 && Start(Parent) == 3 && Start(Next) == 7 && Start(Prev) == 11 && Start(Self) == 15
    ensures Start(Key(true, i)) == 20 + 134 * i && Start(Row(i)) == 148 + 134 * i
    ensures Start(Child(i)) == 20 + 132 * i && Start(Key(false, i)) == 24 + 132 * i
    ensures Size(Key(true, i)) == Size(Key(false, i)) == 128 && Size(Row(i)) == 6 && Size(Child(i)) == 4
  {
  }

  /** The orders are exact: one slot more, as after a merge of too many, lies outside the page. */
  lemma SlotsInside(i: nat)
    ensures Start(Row(i)) + Size(Row(i)) <= PAGE_SIZE <==> i < LEAF_ORDER
    ensures Start(Key(false, i)) + Size(Key(false, i)) <= PAGE_SIZE <==> i < INTERNAL_ORDER
    ensures Start(Child(i)) + Size(Child(i)) <= PAGE_SIZE <==> i <= INTERNAL_ORDER
    ensures Start(Key(true, i)) + Size(Key(true, i)) == Start(Row(i))
  {
  }

  /** No two fields of a node share a byte. */
  lemma FieldsApart(f: Field, g: Field, leaf: bool)
    requires Of(f, leaf) && Of(g, leaf) && f != g
    ensures Start(f) + Size(f) <= Start(g) || Start(g) + Size(g) <= Start(f)
  {
  }

  function Part(b: Bytes, f: Field): (r: Bytes)
    requires Start(f) + Size(f) <= |b|
    ensures |r| == Size(f)
  {
    b[Start(f)..Start(f) + Size(f)]
  }

  function Put(b: Bytes, f: Field, bytes: Bytes): (r: Bytes)
    requires |b| == PAGE_SIZE && Start(f) + Size(f) <= |b| && |bytes| == Size(f)
    ensures |r| == |b|
  {
    b[..Start(f)] + bytes + b[Start(f) + Size(f)..]
  }

  /** Writing some bytes over others changes no slice beside them. */
  lemma SpliceSlice(b: Bytes, at: nat, bytes: Bytes, from: nat, n: nat)
    requires at + |bytes| <= |b| && from + n <= |b|
    ensures var b' := b[..at] + bytes + b[at + |bytes|..];
            && (from == at && n == |bytes| ==> b'[from..from + n] == bytes)
            && (from + n <= at || at + |bytes| <= from ==> b'[from..from + n] == b[from..from + n])
  {
    var b' := b[..at] + bytes + b[at + |bytes|..];
    assert forall k | 0 <= k < |b| :: b'[k] == if at <= k < at + |bytes| then bytes[k - at] else b[k];
    if from == at && n == |bytes| {
      assert b'[from..from + n] == bytes;
    }
    if from + n <= at || at + |bytes| <= from {
      assert b'[from..from + n] == b[from..from + n];
    }
  }

  /** Writing a field changes that field and no other. */
  lemma PutPart(b: Bytes, f: Field, bytes: Bytes, g: Field, leaf: bool)
    requires |b| == PAGE_SIZE && Of(f, leaf) && Of(g, leaf) && |bytes| == Size(f)
    requires Start(f) + Size(f) <= PAGE_SIZE && Start(g) + Size(g) <= PAGE_SIZE
    ensures Part(Put(b, f, bytes), g) == if f == g then bytes else Part(b, g)
  {
    if f != g {
      FieldsApart(f, g, leaf);
    }
    hide Start, Size;
    SpliceSlice(b, Start(f), bytes, Start(g), Size(g));
  }

  // --- What the bytes say ----------------------------------------------------------------------------------------

  function RowOf(part: Bytes): Location
    requires |part| == 6
  {
    Location(FromInt(part[..4]), FromShort(part[4..]))
  }

  predicate Counts(b: Bytes) {
    |b| == PAGE_SIZE && FromShort(Part(b, Count)) >= 0
  }

  ghost function EntryAt(b: Bytes, i: nat): Entry
    requires |b| == PAGE_SIZE && i < LEAF_ORDER
  {
    Entry(K.Rank(Part(b, Key(true, i))), RowOf(Part(b, Row(i))))
  }

  ghost function KeyOf(b: Bytes, i: nat): int
    requires |b| == PAGE_SIZE && i < INTERNAL_ORDER
  {
    K.Rank(Part(b, Key(false, i)))
  }

  function ChildOf(b: Bytes, i: nat): int
    requires |b| == PAGE_SIZE && i <= INTERNAL_ORDER
  {
    FromInt(Part(b, Child(i)))
  }

  ghost function LeafSlots(b: Bytes): (r: seq<Entry>)
    requires |b| == PAGE_SIZE
    ensures |r| == LEAF_ORDER && forall i | 0 <= i < LEAF_ORDER :: r[i] == EntryAt(b, i)
  {
    seq(LEAF_ORDER, i requires 0 <= i < LEAF_ORDER => EntryAt(b, i))
  }

  ghost function NodeKeys(b: Bytes): (r: seq<int>)
    requires |b| == PAGE_SIZE
    ensures |r| == INTERNAL_ORDER && forall i | 0 <= i < INTERNAL_ORDER :: r[i] == KeyOf(b, i)
  {
    seq(INTERNAL_ORDER, i requires 0 <= i < INTERNAL_ORDER => KeyOf(b, i))
  }

  function Children(b: Bytes): (r: seq<int>)
    requires |b| == PAGE_SIZE
    ensures |r| == INTERNAL_ORDER + 1 && forall i | 0 <= i <= INTERNAL_ORDER :: r[i] == ChildOf(b, i)
  {
    seq(INTERNAL_ORDER + 1, i requires 0 <= i <= INTERNAL_ORDER => ChildOf(b, i))
  }

  /** The page of slots that the tree works on. */
  ghost function View(b: Bytes): Page
    requires Counts(b)
  {
    var count := FromShort(Part(b, Count));
    Page(if IsLeaf(b) then LeafBody(count, LeafSlots(b)) else InternalBody(count, NodeKeys(b), Children(b)),
         FromInt(Part(b, Next)), FromInt(Part(b, Prev)))
  }

  predicate IsLeaf(b: Bytes)
    requires |b| == PAGE_SIZE
  {
    Part(b, Kind) == [1]
  }

  /** The slots that differ after a write to field `f`. */
  lemma SlotsAfter(b: Bytes, f: Field, bytes: Bytes, leaf: bool)
    requires |b| == PAGE_SIZE && Of(f, leaf) && |bytes| == Size(f) && Start(f) + Size(f) <= PAGE_SIZE
    requires IsLeaf(b) == leaf && f != Kind
    ensures IsLeaf(Put(b, f, bytes)) == leaf
    ensures forall g | g in {Count, Next, Prev} :: Part(Put(b, f, bytes), g) == if f == g then bytes else Part(b, g)
    ensures leaf ==> forall i | 0 <= i < LEAF_ORDER ::
              && Part(Put(b, f, bytes), Key(true, i)) == (if f == Key(true, i) then bytes else Part(b, Key(true, i)))
              && Part(Put(b, f, bytes), Row(i)) == if f == Row(i) then bytes else Part(b, Row(i))
    ensures !leaf ==> forall i | 0 <= i < INTERNAL_ORDER ::
              Part(Put(b, f, bytes), Key(false, i)) == if f == Key(false, i) then bytes else Part(b, Key(false, i))
    ensures !leaf ==> forall i | 0 <= i <= INTERNAL_ORDER ::
              Part(Put(b, f, bytes), Child(i)) == if f == Child(i) then bytes else Part(b, Child(i))
  {
    hide Part, Put;
    PutPart(b, f, bytes, Kind, leaf);
    PutPart(b, f, bytes, Count, leaf);
    PutPart(b, f, bytes, Next, leaf);
    PutPart(b, f, bytes, Prev, leaf);
    if leaf {
      forall i | 0 <= i < LEAF_ORDER
        ensures && Part(Put(b, f, bytes), Key(true, i)) == (if f == Key(true, i) then bytes else Part(b, Key(true, i)))
                && Part(Put(b, f, bytes), Row(i)) == if f == Row(i) then bytes else Part(b, Row(i))
      {
        PutPart(b, f, bytes, Key(true, i), leaf);
        PutPart(b, f, bytes, Row(i), leaf);
      }
    } else {
      forall i | 0 <= i < INTERNAL_ORDER
        ensures Part(Put(b, f, bytes), Key(false, i)) == if f == Key(false, i) then bytes else Part(b, Key(false, i))
      {
        PutPart(b, f, bytes, Key(false, i), leaf);
      }
      forall i | 0 <= i <= INTERNAL_ORDER
        ensures Part(Put(b, f, bytes), Child(i)) == if f == Child(i) then bytes else Part(b, Child(i))
      {
        PutPart(b, f, bytes, Child(i), leaf);
      }
    }
  }

  /** The page as slots after one field of it has been written. */
  ghost function Written(p: Page, f: Field, bytes: Bytes): Page
    requires |bytes| == Size(f) && Of(f, p.body.LeafBody?) && f != Kind
    requires f == Count ==> FromShort(bytes) >= 0
    requires if p.body.LeafBody? then |p.body.slots| == LEAF_ORDER
             else |p.body.keys| == INTERNAL_ORDER && |p.body.children| == INTERNAL_ORDER + 1
  {
    match f
    case Count => p.(body := p.body.(count := FromShort(bytes)))
    case Next => p.(next := FromInt(bytes))
    case Prev => p.(prev := FromInt(bytes))
    case Key(true, i) => p.(body := p.body.(slots := p.body.slots[i := p.body.slots[i].(key := K.Rank(bytes))]))
    case Key(false, i) => p.(body := p.body.(keys := p.body.keys[i := K.Rank(bytes)]))
    case Row(i) => p.(body := p.body.(slots := p.body.slots[i := p.body.slots[i].(loc := RowOf(bytes))]))
    case Child(i) => p.(body := p.body.(children := p.body.children[i := FromInt(bytes)]))
    case _ => p
  }

  /** Writing the bytes of a field is updating that slot of the page. */
  lemma ViewAfter(b: Bytes, f: Field, bytes: Bytes)
    requires Counts(b) && Of(f, IsLeaf(b)) && f != Kind && |bytes| == Size(f) && Start(f) + Size(f) <= PAGE_SIZE
    requires f == Count ==> FromShort(bytes) >= 0
    ensures Counts(Put(b, f, bytes)) && View(Put(b, f, bytes)) == Written(View(b), f, bytes)
  {
    hide Part, Put, RowOf, K.Rank, FromInt, FromShort, IsLeaf;
    var b', leaf := Put(b, f, bytes), IsLeaf(b);
    SlotsAfter(b, f, bytes, leaf);
    if leaf {
      assert View(b').body.slots == Written(View(b), f, bytes).body.slots;
    } else {
      assert View(b').body.keys == Written(View(b), f, bytes).body.keys;
      assert View(b').body.children == Written(View(b), f, bytes).body.children;
    }
  }

  /** The same bytes under the other type byte: the slots are read anew from them. */
  ghost function Retyped(b: Bytes, leaf: bool): Page
    requires Counts(b)
  {
    View(b).(body := if leaf then LeafBody(View(b).body.count, LeafSlots(b))
                     else InternalBody(View(b).body.count, NodeKeys(b), Children(b)))
  }

  lemma RetypedAfter(b: Bytes, leaf: bool)
    requires Counts(b)
    ensures var b' := Put(b, Kind, [if leaf then 1 else 0]); Counts(b') && View(b') == Retyped(b, leaf)
  {
    var b' := Put(b, Kind, [if leaf then 1 else 0]);
    hide Part, Put, RowOf, K.Rank, FromInt, FromShort;
    PutPart(b, Kind, [if leaf then 1 else 0], Kind, leaf);
    PutPart(b, Kind, [if leaf then 1 else 0], Count, leaf);
    PutPart(b, Kind, [if leaf then 1 else 0], Next, leaf);
    PutPart(b, Kind, [if leaf then 1 else 0], Prev, leaf);
    HeaderKeepsEntries(b, Kind, [if leaf then 1 else 0]);
    forall i | 0 <= i < INTERNAL_ORDER ensures KeyOf(b', i) == KeyOf(b, i) {
      PutPart(b, Kind, [if leaf then 1 else 0], Key(false, i), false);
    }
    forall i | 0 <= i <= INTERNAL_ORDER ensures ChildOf(b', i) == ChildOf(b, i) {
      PutPart(b, Kind, [if leaf then 1 else 0], Child(i), false);
    }
    assert NodeKeys(b') == NodeKeys(b) && Children(b') == Children(b);
  }

  lemma HeaderKeepsEntries(b: Bytes, f: Field, bytes: Bytes)
    requires |b| == PAGE_SIZE && f in {Kind, Next, Prev, Self} && |bytes| == Size(f)
    ensures LeafSlots(Put(b, f, bytes)) == LeafSlots(b)
  {
    hide Part, Put;
    forall i | 0 <= i < LEAF_ORDER ensures EntryAt(Put(b, f, bytes), i) == EntryAt(b, i) {
      PutPart(b, f, bytes, Key(true, i), true);
      PutPart(b, f, bytes, Row(i), true);
    }
  }

  lemma ZeroPart(f: Field)
    requires Start(f) + Size(f) <= PAGE_SIZE
    ensures Part(Zeros(PAGE_SIZE), f) == Zeros(Size(f))
  {
    hide Start, Size;
  }

  /** A page the pool has just handed out reads as an empty internal node. */
  lemma ZerosRead()
    ensures Counts(Zeros(PAGE_SIZE)) && View(Zeros(PAGE_SIZE)) == T.ZeroPage()
    ensures LeafSlots(Zeros(PAGE_SIZE)) == EmptyLeaf().body.slots
  {
    var b := Zeros(PAGE_SIZE);
    ZeroNumbers();
    ZeroPart(Count);
    ZeroPart(Kind);
    ZeroPart(Next);
    ZeroPart(Prev);
    hide Part;
    forall i | 0 <= i < INTERNAL_ORDER ensures KeyOf(b, i) == 0 { ZeroPart(Key(false, i)); }
    forall i | 0 <= i <= INTERNAL_ORDER ensures ChildOf(b, i) == 0 { ZeroPart(Child(i)); }
    assert Zeros(1)[0] == 0;
    assert View(b).body == T.ZeroPage().body;
    assert Zeros(6)[..4] == Zeros(4) && Zeros(6)[4..] == Zeros(2);
    forall i | 0 <= i < LEAF_ORDER ensures EntryAt(b, i) == Entry(0, Location(0, 0)) {
      ZeroPart(Key(true, i));
      ZeroPart(Row(i));
    }
  }

  /** A new leaf has no entries, and its slots are zero. */
  function EmptyLeaf(): Page {
    Page(LeafBody(0, seq(LEAF_ORDER, _ => Entry(0, Location(0, 0)))), -1, -1)
  }

  lemma ZeroNumbers()
    ensures FromInt(Zeros(4)) == 0 && FromShort(Zeros(2)) == 0 && K.Rank(Zeros(KEY_SIZE)) == 0
  {
    K.LowestRank(KEY_SIZE);
    assert Zeros(4)[1..] == Zeros(3) && Zeros(3)[1..] == Zeros(2) && Zeros(2)[1..] == Zeros(1);
    assert FromLittle(Zeros(1)) == 0 && FromLittle(Zeros(2)) == 0 && FromLittle(Zeros(3)) == 0;
  }

  class BPlusTreeNode {
    const data: array<byte>

    ghost predicate Valid()
      reads data
    {
      Counts(data[..])
    }

    /** The page of slots that the tree works on. */
    ghost function Shown(): Page
      requires Valid()
      reads data
    {
      View(data[..])
    }

    /** A node is a view of a page that someone else holds. */
    constructor (data: array<byte>)
      ensures this.data == data
    {
      this.data := data;
    }

    static method CreateLeaf(data: array<byte>, pageId: int32) returns (node: BPlusTreeNode)
      requires data[..] == Zeros(PAGE_SIZE)
      modifies data
      ensures fresh(node) && node.data == data && node.Valid() && node.Shown() == EmptyLeaf()
    {
      hide View, Put, Part, LeafSlots;
      ZerosRead();
      node := new BPlusTreeNode(data);
      node.SetNextLeafPageId(-1);
      node.SetPrevLeafPageId(-1);
      node.SetPageId(pageId);
      node.SetType(true);
    }

    method SetType(leaf: bool)
      requires Valid()
      modifies data
      ensures Valid() && Shown() == Retyped(old(data[..]), leaf)
      ensures LeafSlots(data[..]) == old(LeafSlots(data[..]))
    {
      hide View, Put, Part;
      RetypedAfter(data[..], leaf);
      HeaderKeepsEntries(data[..], Kind, [if leaf then 1 else 0]);
      Write(Kind, [if leaf then 1 else 0]);
    }

    method SetPageId(pageId: int32)
      requires Valid()
      modifies data
      ensures Valid() && Shown() == old(Shown()) && LeafSlots(data[..]) == old(LeafSlots(data[..]))
    {
      hide View, Put, Part;
      ViewAfter(data[..], Self, Little(Unsigned(pageId), 4));
      HeaderKeepsEntries(data[..], Self, Little(Unsigned(pageId), 4));
      Write(Self, Little(Unsigned(pageId), 4));
    }

    /** memcpy into the page. */
    method Write(f: Field, bytes: Bytes)
      requires data.Length == PAGE_SIZE && Start(f) + Size(f) <= PAGE_SIZE && |bytes| == Size(f)
      modifies data
      ensures data[..] == Put(old(data[..]), f, bytes)
    {
      CopyInto(data, Start(f), bytes);
    }

    method Read(f: Field) returns (bytes: Bytes)
      requires data.Length == PAGE_SIZE && Start(f) + Size(f) <= PAGE_SIZE
      ensures bytes == Part(data[..], f)
    {
      bytes := data[Start(f)..Start(f) + Size(f)];
    }

    method SetKeyCount(count: nat)
      requires Valid() && count < 0x8000
      modifies data
      ensures Valid() && Shown() == old(Shown()).(body := old(Shown()).body.(count := count))
    {
      hide View, Put, Part;
      ShortRoundTrip(count);
      ViewAfter(data[..], Count, Short(count));
      Write(Count, Short(count));
    }

    method SetNextLeafPageId(v: int32)
      requires Valid()
      modifies data
      ensures Valid() && Shown() == old(Shown()).(next := v) && LeafSlots(data[..]) == old(LeafSlots(data[..]))
    {
      hide View, Put, Part;
      IntRoundTrip(v);
      HeaderKeepsEntries(data[..], Next, Little(Unsigned(v), 4));
      ViewAfter(data[..], Next, Little(Unsigned(v), 4));
      Write(Next, Little(Unsigned(v), 4));
    }

    method SetPrevLeafPageId(v: int32)
      requires Valid()
      modifies data
      ensures Valid() && Shown() == old(Shown()).(prev := v) && LeafSlots(data[..]) == old(LeafSlots(data[..]))
    {
      hide View, Put, Part;
      IntRoundTrip(v);
      HeaderKeepsEntries(data[..], Prev, Little(Unsigned(v), 4));
      ViewAfter(data[..], Prev, Little(Unsigned(v), 4));
      Write(Prev, Little(Unsigned(v), 4));
    }

    method GetKey(i: nat) returns (key: Bytes)
      requires Valid() && i < LEAF_ORDER
      ensures |key| == KEY_SIZE && K.Rank(key) == T.KeyAt(Shown().body, i)
    {
      var kind := Read(Kind);
      key := Read(Key(kind == [1], i));
    }

    method SetKey(i: nat, key: Bytes)
      requires Valid() && i < LEAF_ORDER && |key| == KEY_SIZE
      modifies data
      ensures Valid() && Shown() == old(Shown()).(body :=
        var b := old(Shown()).body;
        if b.LeafBody? then b.(slots := b.slots[i := b.slots[i].(key := K.Rank(key))])
        else b.(keys := b.keys[i := K.Rank(key)]))
    {
      hide Put, Part;
      var kind := Read(Kind);
      var f := Key(kind == [1], i);
      ViewAfter(data[..], f, key);
      Write(f, key);
    }

    method GetRowLocation(i: nat) returns (loc: Location)
      requires Valid() && Shown().body.LeafBody? && i < LEAF_ORDER
      ensures loc == Shown().body.slots[i].loc
    {
      var bytes := Read(Row(i));
      loc := RowOf(bytes);
    }

    method SetRowLocation(i: nat, pageId: int32, slotIndex: int16)
      requires Valid() && Shown().body.LeafBody? && i < LEAF_ORDER
      modifies data
      ensures Valid() && Shown() == old(Shown()).(body :=
        var b := old(Shown()).body;
        b.(slots := b.slots[i := b.slots[i].(loc := Location(pageId, slotIndex))]))
    {
      hide View, Put, Part;
      assert IsLeaf(data[..]) by { ShownIsLeaf(); }
      IntRoundTrip(pageId);
      ShortRoundTrip(slotIndex);
      var bytes := Little(Unsigned(pageId), 4) + Short(slotIndex);
      assert bytes[..4] == Little(Unsigned(pageId), 4) && bytes[4..] == Short(slotIndex);
      ViewAfter(data[..], Row(i), bytes);
      Write(Row(i), bytes);
    }

    lemma ShownIsLeaf()
      requires Valid()
      ensures IsLeaf(data[..]) == Shown().body.LeafBody?
    {
    }

    method GetChildPageId(i: nat) returns (child: int32)
      requires Valid() && Shown().body.InternalBody? && i <= INTERNAL_ORDER
      ensures child == Shown().body.children[i]
    {
      var bytes := Read(Child(i));
      child := FromInt(bytes);
    }

    method SetChildPageId(i: nat, child: int32)
      requires Valid() && Shown().body.InternalBody? && i <= INTERNAL_ORDER
      modifies data
      ensures Valid() && Shown() == old(Shown()).(body :=
        var b := old(Shown()).body;
        b.(children := b.children[i := child]))
    {
      hide View, Put, Part;
      ShownIsLeaf();
      IntRoundTrip(child);
      ViewAfter(data[..], Child(i), Little(Unsigned(child), 4));
      Write(Child(i), Little(Unsigned(child), 4));
    }

    /** Lower bound by binary search, comparing keys byte by byte. */
    method FindKeyIndex(key: Bytes) returns (ans: nat)
      requires Valid() && T.Searchable(Shown().body) && |key| == KEY_SIZE
      ensures ans <= Shown().body.count
      ensures forall i | 0 <= i < ans :: T.KeyAt(Shown().body, i) < K.Rank(key)
      ensures ans < Shown().body.count ==> T.KeyAt(Shown().body, ans) >= K.Rank(key)
    {
      hide View, Part, K.Compare, K.Rank;
      var stored := Read(Count);
      ShownCount();
      ghost var b := Shown().body;
      var l, r := 0, FromShort(stored) - 1;
      ans := FromShort(stored);
      while l <= r
        invariant 0 <= l <= ans <= b.count && r == ans - 1
        invariant forall i | 0 <= i < l :: T.KeyAt(b, i) < K.Rank(key)
        invariant ans < b.count ==> T.KeyAt(b, ans) >= K.Rank(key)
        decreases r - l + 1
      {
        var mid := (l + r) / 2;
        var midKey := GetKey(mid);
        K.CompareByRank(midKey, key);
        if K.Compare(midKey, key) >= 0 {
          ans, r := mid, mid - 1;
        } else {
          l := mid + 1;
        }
      }
    }

    lemma ShownCount()
      requires Valid() && T.Searchable(Shown().body)
      ensures FromShort(Part(data[..], Count)) == Shown().body.count <= LEAF_ORDER
    {
    }
  }
}
