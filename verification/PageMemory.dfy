/** Physical memory holding translation tables: how a tree of tables is laid out in pages. */
module PageMemory {
  import opened Wrappers
  import opened Bits
  import opened Descriptors
  import opened TableTree
  import opened FillTranslates
  import opened TableLaws

  /** Page address to the 64-bit words of the page. */
  type Memory = map<nat, seq<nat>>

  function Zeros(n: nat): (words: seq<nat>)
    ensures |words| == n && forall i :: 0 <= i < n ==> words[i] == 0
  {
    seq(n, i => 0)
  }

  /** The memory after one word of a page is written. */
  function Write(mem: Memory, page: nat, index: nat, word: nat): Memory
    requires page in mem && index < |mem[page]|
  {
    var words: seq<nat> := mem[page][index := word];
    mem[page := words]
  }

  function WordOf(p: nat, e: Entry): nat {
    match e
    case Word(w) => w
    case Table(page, _) => TableDescriptor(p, page)
  }

  /** The words at `base` are the entries, and every table below is stored in its own page. */
  predicate Stored(mem: Memory, p: nat, base: nat, kids: seq<Entry>)
    decreases kids, 1
  {
    && base in mem && |mem[base]| == |kids|
    && (forall i :: 0 <= i < |kids| ==> mem[base][i] == WordOf(p, kids[i]))
    && (forall i :: 0 <= i < |kids| ==> StoredEntry(mem, p, kids[i]))
  }

  predicate StoredEntry(mem: Memory, p: nat, e: Entry)
    decreases e, 0
  {
    match e
    case Word(_) => true
    case Table(page, kids) => Stored(mem, p, page, kids)
  }

  /** No page is held twice. */
  ghost predicate NoDuplicates(m: multiset<nat>) {
    forall x :: m[x] <= 1
  }

  function Held(base: nat, kids: seq<Entry>, pool: seq<nat>): multiset<nat> {
    multiset{base} + multiset(Pages(kids)) + multiset(pool)
  }

  /** A page that every address mask of the code can express: the 32-bit mask used when a table descriptor is
      written, and the mask of `bits` address bits used when it is read. */
  predicate PageOk(p: nat, bits: nat, a: nat) {
    a != 0 && PageAligned(p, a) && a < 0x1_0000_0000 && a + Pow2(p) <= Pow2(bits)
  }

  ghost predicate AllPagesOk(mem: Memory, p: nat, bits: nat, m: multiset<nat>)
    requires p >= 3
  {
    forall a :: a in m ==> PageOk(p, bits, a) && a in mem && |mem[a]| == Entries(p)
  }

  // ---------------------------------------------------------------- framing

  lemma {:induction false} PagesOfEntry(es: seq<Entry>, i: nat, a: nat)
    requires i < |es| && a in EntryPages(es[i])
    ensures a in Pages(es)
  {
    PagesSplit(es, i);
  }

  /** A stored tree depends only on its own pages. */
  lemma {:induction false} StoredFrame(mem: Memory, mem': Memory, p: nat, base: nat, kids: seq<Entry>)
    requires Stored(mem, p, base, kids)
    requires base in mem' && mem'[base] == mem[base]
    requires forall a :: a in Pages(kids) ==> a in mem && a in mem' && mem'[a] == mem[a]
    ensures Stored(mem', p, base, kids)
    decreases kids, 1
  {
    hide WordOf, Pages;
    forall i | 0 <= i < |kids|
      ensures StoredEntry(mem', p, kids[i])
    {
      forall a | a in EntryPages(kids[i]) ensures a in mem && a in mem' && mem'[a] == mem[a] {
        PagesOfEntry(kids, i, a);
      }
      StoredEntryFrame(mem, mem', p, kids[i]);
    }
  }

  lemma {:induction false} StoredEntryFrame(mem: Memory, mem': Memory, p: nat, e: Entry)
    requires StoredEntry(mem, p, e)
    requires forall a :: a in EntryPages(e) ==> a in mem && a in mem' && mem'[a] == mem[a]
    ensures StoredEntry(mem', p, e)
    decreases e, 0
  {
    hide Pages;
    if e.Table? {
      assert e.page in EntryPages(e);
      StoredFrame(mem, mem', p, e.page, e.kids);
    }
  }

  /** Replacing one entry: its new subtree is stored, and the pages of the other entries are as before. */
  lemma StoreEntry(mem: Memory, mem': Memory, p: nat, base: nat, kids: seq<Entry>, i: nat, e: Entry)
    requires Stored(mem, p, base, kids) && i < |kids|
    requires base in mem' && mem'[base] == mem[base][i := WordOf(p, e)]
    requires StoredEntry(mem', p, e)
    requires forall j, a :: 0 <= j < |kids| && j != i && a in EntryPages(kids[j]) ==>
      a in mem && a in mem' && mem'[a] == mem[a]
    ensures Stored(mem', p, base, kids[i := e])
  {
    hide WordOf, EntryPages;
    var kids' := kids[i := e];
    forall j | 0 <= j < |kids'|
      ensures StoredEntry(mem', p, kids'[j]) && mem'[base][j] == WordOf(p, kids'[j])
    {
      if j != i {
        assert kids'[j] == kids[j];
        StoredEntryFrame(mem, mem', p, kids[j]);
      }
    }
  }

  /** The pages of two different entries, the page of the table and the pages of the allocator are all different. */
  lemma Apart(base: nat, kids: seq<Entry>, pool: seq<nat>, i: nat, j: nat, a: nat)
    requires NoDuplicates(Held(base, kids, pool)) && i < |kids| && j < |kids| && i != j
    requires a in EntryPages(kids[j])
    ensures a != base && a !in EntryPages(kids[i]) && a !in pool
  {
    hide Pages, EntryPages;
    PagesSplit(kids, i);
    var before, after := kids[..i], kids[i + 1..];
    if j < i {
      PagesOfEntry(before, j, a);
    } else {
      PagesOfEntry(after, j - i - 1, a);
    }
    var others := multiset(Pages(before)) + multiset(Pages(after));
    assert multiset(Pages(kids)) == others + multiset(EntryPages(kids[i]));
    assert a in others;
    assert Held(base, kids, pool)[a]
        == multiset{base}[a] + others[a] + multiset(EntryPages(kids[i]))[a] + multiset(pool)[a];
    assert Held(base, kids, pool)[a] <= 1;
  }

  lemma EntryPagesHeld(base: nat, kids: seq<Entry>, pool: seq<nat>, i: nat)
    requires i < |kids|
    ensures multiset(EntryPages(kids[i])) <= multiset(Pages(kids))
    ensures multiset{base} + multiset(EntryPages(kids[i])) + multiset(pool) <= Held(base, kids, pool)
  {
    hide Pages, EntryPages;
    PagesSplit(kids, i);
    var before, after := kids[..i], kids[i + 1..];
    assert multiset(Pages(kids)) == multiset(EntryPages(kids[i])) + (multiset(Pages(before)) + multiset(Pages(after)));
  }

  lemma NoDuplicatesSubset(m: multiset<nat>, m': multiset<nat>)
    requires NoDuplicates(m) && m' <= m
    ensures NoDuplicates(m')
  {
  }

  lemma AllPagesOkSubset(mem: Memory, mem': Memory, p: nat, bits: nat, m: multiset<nat>, m': multiset<nat>)
    requires p >= 3 && AllPagesOk(mem, p, bits, m) && m' <= m && mem'.Keys == mem.Keys
    requires forall a :: a in mem ==> |mem'[a]| == |mem[a]|
    ensures AllPagesOk(mem', p, bits, m')
  {
    hide PageOk;
    forall a | a in m' ensures PageOk(p, bits, a) && a in mem' && |mem'[a]| == Entries(p) {
      assert m'[a] <= m[a];
    }
  }

  /** AllPagesOk does not depend on the contents of the pages. */
  lemma AllPagesOkLater(mem: Memory, p: nat, bits: nat, m: multiset<nat>)
    requires p >= 3 && AllPagesOk(mem, p, bits, m)
    ensures forall mem': Memory, m' {:trigger AllPagesOk(mem', p, bits, m')} ::
      m' <= m && mem'.Keys == mem.Keys && (forall a :: a in mem ==> |mem'[a]| == |mem[a]|) ==>
        AllPagesOk(mem', p, bits, m')
  {
    forall mem': Memory, m' | m' <= m && mem'.Keys == mem.Keys && (forall a :: a in mem ==> |mem'[a]| == |mem[a]|)
      ensures AllPagesOk(mem', p, bits, m')
    {
      AllPagesOkSubset(mem, mem', p, bits, m, m');
    }
  }

  // ---------------------------------------------------------------- one step of a fill, in memory

  /** Writing a leaf word. */
  lemma LeafStored(mem: Memory, p: nat, base: nat, kids: seq<Entry>, pool: seq<nat>, i: nat, word: nat)
    requires Stored(mem, p, base, kids) && NoDuplicates(Held(base, kids, pool)) && i < |kids|
    requires forall a :: a in Pages(kids) ==> a in mem
    ensures Stored(Write(mem, base, i, word), p, base, kids[i := Word(word)])
  {
    hide Pages, EntryPages, Held, NoDuplicates, Stored;
    StoredShape(mem, p, base, kids);
    var mem' := Write(mem, base, i, word);
    forall j, a | 0 <= j < |kids| && j != i && a in EntryPages(kids[j])
      ensures a in mem && a in mem' && mem'[a] == mem[a]
    {
      Apart(base, kids, pool, i, j, a);
      PagesOfEntry(kids, j, a);
    }
    StoreEntry(mem, mem', p, base, kids, i, Word(word));
  }

  lemma StoredShape(mem: Memory, p: nat, base: nat, kids: seq<Entry>)
    requires Stored(mem, p, base, kids)
    ensures base in mem && |mem[base]| == |kids|
  {
  }

  /** Taking a page from the allocator and zeroing it. */
  lemma ZeroedStored(mem: Memory, p: nat, base: nat, kids: seq<Entry>, pool: seq<nat>, mem': Memory)
    requires p >= 3 && Stored(mem, p, base, kids) && NoDuplicates(Held(base, kids, pool)) && pool != []
    requires forall a :: a in Pages(kids) ==> a in mem
    requires pool[0] in mem && |mem[pool[0]]| == Entries(p) && mem' == mem[pool[0] := Zeros(Entries(p))]
    ensures Stored(mem', p, base, kids) && Stored(mem', p, pool[0], Zeroed(p))
    ensures Held(pool[0], Zeroed(p), pool[1..]) <= Held(base, kids, pool)
    ensures NoDuplicates(Held(pool[0], Zeroed(p), pool[1..]))
  {
    hide Pages, Stored, Zeroed;
    var page := pool[0];
    WordsHaveNoPages(Zeroed(p));
    assert pool == [page] + pool[1..];
    assert Held(page, Zeroed(p), pool[1..]) == multiset(pool);
    var others := multiset{base} + multiset(Pages(kids));
    assert Held(base, kids, pool) == others + multiset(pool);
    NoDuplicatesSubset(Held(base, kids, pool), Held(page, Zeroed(p), pool[1..]));
    StoredShape(mem, p, base, kids);
    forall a | a == base || a in Pages(kids) ensures a != page {
      assert a in others;
      assert Held(base, kids, pool)[a] == others[a] + multiset(pool)[a] <= 1;
      assert multiset(pool)[page] >= 1;
    }
    StoredFrame(mem, mem', p, base, kids);
    ZeroPageStored(mem', p, page);
  }

  lemma ZeroPageStored(mem: Memory, p: nat, page: nat)
    requires p >= 3 && page in mem && mem[page] == Zeros(Entries(p))
    ensures Stored(mem, p, page, Zeroed(p))
  {
  }

  /** A table that is already there is stored, with its pages held by its parent. */
  lemma ChildStored(mem: Memory, p: nat, base: nat, kids: seq<Entry>, pool: seq<nat>, i: nat)
    requires Stored(mem, p, base, kids) && NoDuplicates(Held(base, kids, pool)) && i < |kids| && kids[i].Table?
    ensures Stored(mem, p, kids[i].page, kids[i].kids) && mem[base][i] == TableDescriptor(p, kids[i].page)
    ensures Held(kids[i].page, kids[i].kids, pool) <= Held(base, kids, pool)
    ensures NoDuplicates(Held(kids[i].page, kids[i].kids, pool))
  {
    hide Pages;
    assert StoredEntry(mem, p, kids[i]) && mem[base][i] == WordOf(p, kids[i]);
    EntryPagesHeld(base, kids, pool, i);
    var e := kids[i];
    assert multiset(EntryPages(e)) == multiset(Pages(e.kids)) + multiset{e.page};
    assert Held(e.page, e.kids, pool) == multiset(EntryPages(e)) + multiset(pool);
    NoDuplicatesSubset(Held(base, kids, pool), Held(e.page, e.kids, pool));
  }

  /** After the child table was filled, its descriptor is written into the parent. */
  lemma TableStored(mem0: Memory, mem: Memory, p: nat, base: nat, kids: seq<Entry>, pool: seq<nat>, i: nat,
                    page: nat, kids': seq<Entry>, touched: multiset<nat>)
    requires Stored(mem0, p, base, kids) && NoDuplicates(Held(base, kids, pool)) && i < |kids|
    requires forall a :: a in Pages(kids) ==> a in mem0
    requires Stored(mem, p, page, kids')
    requires touched == if kids[i].Table? then multiset(EntryPages(kids[i])) + multiset(pool) else multiset(pool)
    requires mem.Keys == mem0.Keys && page != base
    requires forall a :: a in mem0 && a !in touched ==> mem[a] == mem0[a]
    requires base !in Pages(kids')
    ensures base in mem && |mem[base]| == |kids|
    ensures Stored(Write(mem, base, i, TableDescriptor(p, page)), p, base, kids[i := Table(page, kids')])
  {
    hide Pages, Stored, NoDuplicates;
    StoredShape(mem0, p, base, kids);
    BaseNotTouched(base, kids, pool, i);
    var mem' := Write(mem, base, i, TableDescriptor(p, page));
    StoredShape(mem, p, page, kids');
    StoredPagesInMemory(mem, p, page, kids');
    StoredFrame(mem, mem', p, page, kids');
    forall j, a | 0 <= j < |kids| && j != i && a in EntryPages(kids[j])
      ensures a in mem0 && a in mem' && mem'[a] == mem0[a]
    {
      Apart(base, kids, pool, i, j, a);
      PagesOfEntry(kids, j, a);
    }
    StoreEntry(mem0, mem', p, base, kids, i, Table(page, kids'));
  }

  lemma BaseNotTouched(base: nat, kids: seq<Entry>, pool: seq<nat>, i: nat)
    requires NoDuplicates(Held(base, kids, pool)) && i < |kids|
    ensures base !in pool && base !in EntryPages(kids[i]) && base !in Pages(kids)
  {
    hide Pages, EntryPages;
    EntryPagesHeld(base, kids, pool, i);
    assert Held(base, kids, pool)[base] <= 1;
    if base in EntryPages(kids[i]) { PagesOfEntry(kids, i, base); }
  }

  lemma {:induction false} StoredPagesInMemory(mem: Memory, p: nat, base: nat, kids: seq<Entry>)
    requires Stored(mem, p, base, kids)
    ensures forall a :: a in Pages(kids) ==> a in mem
    decreases kids
  {
    hide WordOf;
    forall a | a in Pages(kids) ensures a in mem {
      var i := EntryOfPage(kids, a);
      assert StoredEntry(mem, p, kids[i]);
      var Table(page, kids') := kids[i];
      assert Stored(mem, p, page, kids');
      StoredPagesInMemory(mem, p, page, kids');
    }
  }

  lemma {:induction false} EntryOfPage(es: seq<Entry>, a: nat) returns (i: nat)
    requires a in Pages(es)
    ensures i < |es| && es[i].Table? && (a == es[i].page || a in Pages(es[i].kids))
    decreases |es|
  {
    if a in EntryPages(es[0]) {
      i := 0;
    } else {
      i := EntryOfPage(es[1..], a);
      i := i + 1;
    }
  }

  // ---------------------------------------------------------------- the architectural walk in memory

  /** The walk as the hardware does it: table addresses are bits 47:p of the words read. */
  function MemWalk(mem: Memory, p: nat, h: nat, n: nat, base: nat, x: nat): Option<Leaf>
    requires p >= 3 && n > 0
    decreases h
  {
    var i := Index(p, h, n, x);
    if base !in mem || i >= |mem[base]| then None
    else
      var w := mem[base][i];
      if h > 0 && IsValid(w) && !IsBlock(w) then
        MemWalk(mem, p, h - 1, Entries(p), TableAddress(w, p, 48), x)
      else
        WalkWord(p, h, w, x)
  }

  /** Walking the memory is walking the tree stored in it. */
  lemma {:induction false} MemWalkIsWalk(mem: Memory, p: nat, h: nat, n: nat, base: nat, kids: seq<Entry>, x: nat)
    requires Granule(p) && Stored(mem, p, base, kids) && Proper(p, h, kids) && Sized(p, h, kids) && 0 < n <= |kids|
    requires forall a :: a in Pages(kids) ==> PageOk(p, 48, a)
    ensures MemWalk(mem, p, h, n, base, x) == Walk(p, h, n, kids, x)
    decreases h
  {
    hide Pow2, SizeLog2, BlockSize, Quot, Rem, IsBlock, IsValid, TableAddress, TableDescriptor, Pages, WalkWord;
    var i := Index(p, h, n, x);
    var e := kids[i];
    assert ProperEntry(p, h, e) && SizedEntry(p, h, e) && StoredEntry(mem, p, e);
    if e.Table? {
      assert e.page in EntryPages(e);
      forall a | a in EntryPages(e) ensures a in Pages(kids) {
        PagesOfEntry(kids, i, a);
      }
      TableDescriptorFields(p, e.page, 48);
      MemWalkIsWalk(mem, p, h - 1, Entries(p), e.page, e.kids, x);
    }
  }
}
