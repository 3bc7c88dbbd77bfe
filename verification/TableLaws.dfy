/** Laws of filling that do not depend on how the region is placed: refilling changes nothing, and no page of the
    allocator is lost or used twice. */
module TableLaws {
  import opened Bits
  import opened Descriptors
  import opened TableTree
  import opened FillTranslates

  /** Above the last level a word that is not a table descriptor has the block bit. */
  predicate Proper(p: nat, h: nat, kids: seq<Entry>)
    requires p >= 3
    decreases h, 1
  {
    |kids| == Entries(p) && forall i :: 0 <= i < |kids| ==> ProperEntry(p, h, kids[i])
  }

  predicate ProperEntry(p: nat, h: nat, e: Entry)
    requires p >= 3
    decreases h, 0
  {
    match e
    case Word(w) => h > 0 ==> IsBlock(w)
    case Table(_, kids) => h > 0 && Proper(p, h - 1, kids)
  }

  lemma {:induction false} ProperSized(p: nat, h: nat, kids: seq<Entry>)
    requires p >= 3 && Proper(p, h, kids)
    ensures Sized(p, h, kids)
    decreases h
  {
    forall i | 0 <= i < |kids| && kids[i].Table?
      ensures SizedEntry(p, h, kids[i])
    {
      ProperSized(p, h - 1, kids[i].kids);
    }
  }

  /** The table pages below a table, children before their parent, in the order in which val_pgt_destroy frees them. */
  function Pages(es: seq<Entry>): seq<nat>
    decreases es, 1
  {
    if es == [] then [] else EntryPages(es[0]) + Pages(es[1..])
  }

  function EntryPages(e: Entry): seq<nat>
    decreases e, 0
  {
    match e
    case Word(_) => []
    case Table(page, kids) => Pages(kids) + [page]
  }

  lemma {:induction false} PagesAppend(a: seq<Entry>, b: seq<Entry>)
    ensures Pages(a + b) == Pages(a) + Pages(b)
    decreases |a|
  {
    if a == [] {
      assert a + b == b;
    } else {
      assert (a + b)[1..] == a[1..] + b;
      PagesAppend(a[1..], b);
    }
  }

  lemma PagesSplit(es: seq<Entry>, i: nat)
    requires i < |es|
    ensures Pages(es) == Pages(es[..i]) + EntryPages(es[i]) + Pages(es[i + 1..])
  {
    var rest := es[i..];
    assert es == es[..i] + rest;
    PagesAppend(es[..i], rest);
    assert rest[1..] == es[i + 1..];
  }

  lemma PagesUpdate(es: seq<Entry>, i: nat, e: Entry)
    requires i < |es|
    ensures multiset(Pages(es[i := e])) + multiset(EntryPages(es[i])) == multiset(Pages(es)) + multiset(EntryPages(e))
  {
    var es' := es[i := e];
    PagesSplit(es, i);
    PagesSplit(es', i);
    assert es'[..i] == es[..i] && es'[i + 1..] == es[i + 1..];
  }

  lemma {:induction false} WordsHaveNoPages(es: seq<Entry>)
    requires forall i :: 0 <= i < |es| ==> es[i].Word?
    ensures Pages(es) == []
    decreases |es|
  {
    if es != [] { WordsHaveNoPages(es[1..]); }
  }

  // ---------------------------------------------------------------- the entries a fill visits

  /** At most `left` steps are left, and with `left <= n` they visit different entries. */
  predicate StepsLeft(p: nat, h: nat, n: nat, va: nat, top: nat, left: nat)
    requires p >= 3
  {
    left <= n && top <= va + left * BlockSize(p, h)
  }

  function Visited(p: nat, h: nat, n: nat, va: nat, m: nat): (i: nat)
    requires p >= 3 && n > 0
    ensures i < n
  {
    Rem(Quot(va, BlockSize(p, h)) + m, n)
  }

  lemma VisitStep(p: nat, h: nat, n: nat, va: nat, top: nat, left: nat)
    requires p >= 3 && n > 0 && va < top && StepsLeft(p, h, n, va, top, left)
    ensures left > 0 && StepsLeft(p, h, n, va + BlockSize(p, h), top, left - 1)
    ensures Visited(p, h, n, va, 0) == Index(p, h, n, va)
    ensures var va' := va + BlockSize(p, h);
      forall m :: 0 <= m < left - 1 ==> Visited(p, h, n, va', m) == Visited(p, h, n, va, m + 1) != Index(p, h, n, va)
  {
    hide Pow2, SizeLog2, BlockSize, Quot, Rem, Visited;
    var b := BlockSize(p, h);
    var va' := va + b;
    FirstVisited(p, h, n, va);
    assert left * b == (left - 1) * b + b;
    forall m | 0 <= m < left - 1
      ensures Visited(p, h, n, va', m) == Visited(p, h, n, va, m + 1) != Index(p, h, n, va)
    {
      VisitNext(p, h, n, va, m);
    }
  }

  lemma VisitNext(p: nat, h: nat, n: nat, va: nat, m: nat)
    requires p >= 3 && n > 0 && m + 1 < n
    ensures Visited(p, h, n, va + BlockSize(p, h), m) == Visited(p, h, n, va, m + 1) != Index(p, h, n, va)
  {
    hide Pow2, SizeLog2, BlockSize, Quot, Rem;
    NextBlock(p, h, va);
    RemShift(Quot(va, BlockSize(p, h)), m + 1, n);
  }

  lemma FirstVisited(p: nat, h: nat, n: nat, va: nat)
    requires p >= 3 && n > 0
    ensures Visited(p, h, n, va, 0) == Index(p, h, n, va)
  {
  }

  lemma RemShift(q: nat, k: nat, n: nat)
    requires 0 < k < n
    ensures Rem(q + k, n) != Rem(q, n)
  {
    hide Quot, Rem;
    var d, r := Quot(q, n), Rem(q, n);
    QuotRem(q, n);
    if r + k < n {
      QuotUnique(d, n, r + k);
    } else {
      assert (d + 1) * n == d * n + n;
      QuotUnique(d + 1, n, r + k - n);
    }
  }

  /** The recursive call starts with enough steps for a whole child table. */
  lemma ChildSteps(p: nat, h: nat, va: nat, top: nat)
    requires p >= 3 && h > 0
    ensures StepsLeft(p, h - 1, Entries(p), va, Min(top, va + BlockSize(p, h) - 1), Entries(p))
  {
    BlockStep(p, h);
  }

  /** An entry that is not visited keeps its value. */
  lemma {:induction false} FillTableKeeps(p: nat, h: nat, n: nat, kids: seq<Entry>, va: nat, top: nat, output: nat,
                                          attributes: nat, pool: seq<nat>, left: nat, j: nat)
    requires p >= 3 && Sized(p, h, kids) && 0 < n <= |kids| && j < |kids| && StepsLeft(p, h, n, va, top, left)
    requires forall m :: 0 <= m < left ==> Visited(p, h, n, va, m) != j
    requires FillTable(p, h, n, kids, va, top, output, attributes, pool).Filled?
    ensures FillTable(p, h, n, kids, va, top, output, attributes, pool).value[j] == kids[j]
    decreases left
  {
    hide Pow2, SizeLog2, BlockSize, Quot, Rem, FillEntry, Visited, StepsLeft;
    if va < top {
      var b := BlockSize(p, h);
      var i := Index(p, h, n, va);
      var Filled(e, pool') := FillEntry(p, h, kids[i], va, top, output, attributes, pool);
      VisitStep(p, h, n, va, top, left);
      assert Visited(p, h, n, va, 0) != j;
      var va' := va + b;
      forall m | 0 <= m < left - 1 ensures Visited(p, h, n, va', m) != j {
        assert Visited(p, h, n, va, m + 1) != j;
      }
      FillTableKeeps(p, h, n, kids[i := e], va + b, top, output + b, attributes, pool', left - 1, j);
    }
  }

  // ---------------------------------------------------------------- refilling

  /** Filling the same region again changes no entry and takes no page, whatever the allocator holds. */
  lemma {:induction false} RefillTable(p: nat, h: nat, n: nat, kids: seq<Entry>, va: nat, top: nat, output: nat,
                                       attributes: nat, pool: seq<nat>, left: nat, pool': seq<nat>)
    requires p >= 3 && Sized(p, h, kids) && 0 < n <= |kids| && StepsLeft(p, h, n, va, top, left)
    requires FillTable(p, h, n, kids, va, top, output, attributes, pool).Filled?
    ensures var filled := FillTable(p, h, n, kids, va, top, output, attributes, pool).value;
      FillTable(p, h, n, filled, va, top, output, attributes, pool') == Filled(filled, pool')
    decreases h, left, 1
  {
    hide Pow2, SizeLog2, BlockSize, Quot, Rem, FillEntry, Visited, StepsLeft;
    if va < top {
      var b := BlockSize(p, h);
      var i := Index(p, h, n, va);
      var Filled(e, rest) := FillEntry(p, h, kids[i], va, top, output, attributes, pool);
      var filled := FillTable(p, h, n, kids, va, top, output, attributes, pool).value;
      VisitStep(p, h, n, va, top, left);
      FillTableKeeps(p, h, n, kids[i := e], va + b, top, output + b, attributes, rest, left - 1, i);
      RefillEntry(p, h, kids[i], va, top, output, attributes, pool, pool');
      RefillTable(p, h, n, kids[i := e], va + b, top, output + b, attributes, rest, left - 1, pool');
      assert filled[i := e] == filled;
    }
  }

  lemma {:induction false} RefillEntry(p: nat, h: nat, e: Entry, va: nat, top: nat, output: nat, attributes: nat,
                                       pool: seq<nat>, pool': seq<nat>)
    requires p >= 3 && SizedEntry(p, h, e)
    requires FillEntry(p, h, e, va, top, output, attributes, pool).Filled?
    ensures var filled := FillEntry(p, h, e, va, top, output, attributes, pool).value;
      FillEntry(p, h, filled, va, top, output, attributes, pool') == Filled(filled, pool')
    decreases h, 0
  {
    hide Pow2, SizeLog2, BlockSize, Quot, Rem, StepsLeft, PageDescriptor, BlockDescriptor, Zeroed;
    var b := BlockSize(p, h);
    if h > 0 && !TakesBlock(b, va, top, output) {
      var (page, kids, rest) := if e.Word? then (pool[0], Zeroed(p), pool[1..]) else (e.page, e.kids, pool);
      ChildSteps(p, h, va, top);
      RefillTable(p, h - 1, Entries(p), kids, va, Min(top, va + b - 1), output, attributes, rest, Entries(p), pool');
    }
  }

  // ---------------------------------------------------------------- pages

  lemma MultisetChain(r: multiset<nat>, rp: multiset<nat>, mid: multiset<nat>, midp: multiset<nat>,
                      e0: multiset<nat>, e1: multiset<nat>, k: multiset<nat>, kp: multiset<nat>)
    requires r + rp <= mid + midp && mid + e0 == k + e1 && e1 + midp <= e0 + kp
    ensures r + rp <= k + kp
    ensures r + rp == mid + midp && e1 + midp == e0 + kp ==> r + rp == k + kp
  {
    forall x: nat
      ensures (r + rp)[x] <= (k + kp)[x]
      ensures r + rp == mid + midp && e1 + midp == e0 + kp ==> (r + rp)[x] == (k + kp)[x]
    {
      assert (r + rp)[x] <= (mid + midp)[x] && (mid + e0)[x] == (k + e1)[x] && (e1 + midp)[x] <= (e0 + kp)[x];
    }
  }

  lemma AddPage(t: seq<nat>, tp: seq<nat>, k: seq<nat>, rest: seq<nat>, page: nat)
    requires multiset(t) + multiset(tp) <= multiset(k) + multiset(rest)
    ensures multiset(t + [page]) + multiset(tp) <= multiset(k + [page]) + multiset(rest)
    ensures multiset(t + [page]) + multiset(tp) <= multiset(k) + multiset([page] + rest)
    ensures multiset(t) + multiset(tp) == multiset(k) + multiset(rest) ==>
      multiset(t + [page]) + multiset(tp) == multiset(k) + multiset([page] + rest)
  {
    assert multiset(t + [page]) + multiset(tp) == multiset(t) + multiset(tp) + multiset{page};
    assert multiset(k + [page]) + multiset(rest) == multiset(k) + multiset(rest) + multiset{page};
    assert multiset(k) + multiset([page] + rest) == multiset(k) + multiset(rest) + multiset{page};
    MultisetAdd(multiset(t) + multiset(tp), multiset(k) + multiset(rest), multiset{page});
  }

  lemma MultisetAdd(a: multiset<nat>, b: multiset<nat>, c: multiset<nat>)
    requires a <= b
    ensures a + c <= b + c
  {
    forall x: nat ensures (a + c)[x] <= (b + c)[x] {
      assert a[x] <= b[x];
    }
  }

  /** The pages of the table and of the allocator together only ever shrink: nothing is used twice.  (A table that is
      overwritten by a block descriptor is forgotten.) */
  lemma {:induction false} FillTablePages(p: nat, h: nat, n: nat, kids: seq<Entry>, va: nat, top: nat, output: nat,
                                          attributes: nat, pool: seq<nat>)
    requires p >= 3 && Sized(p, h, kids) && 0 < n <= |kids|
    requires FillTable(p, h, n, kids, va, top, output, attributes, pool).Filled?
    ensures var r := FillTable(p, h, n, kids, va, top, output, attributes, pool);
      multiset(Pages(r.value)) + multiset(r.pool) <= multiset(Pages(kids)) + multiset(pool)
    decreases h, 1 + if va < top then top - va else 0
  {
    hide Pow2, SizeLog2, BlockSize, Quot, Rem, FillEntry, Pages;
    if va < top {
      var b := BlockSize(p, h);
      var i := Index(p, h, n, va);
      var Filled(e, pool') := FillEntry(p, h, kids[i], va, top, output, attributes, pool);
      FillEntryPages(p, h, kids[i], va, top, output, attributes, pool);
      PagesUpdate(kids, i, e);
      FillTablePages(p, h, n, kids[i := e], va + b, top, output + b, attributes, pool');
      var r := FillTable(p, h, n, kids, va, top, output, attributes, pool);
      MultisetChain(multiset(Pages(r.value)), multiset(r.pool), multiset(Pages(kids[i := e])), multiset(pool'),
                    multiset(EntryPages(kids[i])), multiset(EntryPages(e)), multiset(Pages(kids)), multiset(pool));
    }
  }

  lemma {:induction false} FillEntryPages(p: nat, h: nat, e: Entry, va: nat, top: nat, output: nat,
                                          attributes: nat, pool: seq<nat>)
    requires p >= 3 && SizedEntry(p, h, e)
    requires FillEntry(p, h, e, va, top, output, attributes, pool).Filled?
    ensures var r := FillEntry(p, h, e, va, top, output, attributes, pool);
      multiset(EntryPages(r.value)) + multiset(r.pool) <= multiset(EntryPages(e)) + multiset(pool)
    decreases h, 0
  {
    hide Pow2, SizeLog2, BlockSize, Quot, Rem, PageDescriptor, BlockDescriptor, Zeroed, Pages;
    var b := BlockSize(p, h);
    if h > 0 && !TakesBlock(b, va, top, output) {
      var (page, kids, rest) := if e.Word? then (pool[0], Zeroed(p), pool[1..]) else (e.page, e.kids, pool);
      FillTablePages(p, h - 1, Entries(p), kids, va, Min(top, va + b - 1), output, attributes, rest);
      var t := FillTable(p, h - 1, Entries(p), kids, va, Min(top, va + b - 1), output, attributes, rest);
      AddPage(Pages(t.value), t.pool, Pages(kids), rest, page);
      if e.Word? {
        WordsHaveNoPages(Zeroed(p));
        assert pool == [page] + rest;
      }
    }
  }

  /** When the visited entries hold no tables yet, every page taken from the allocator ends up in the table. */
  lemma {:induction false} FreshFillPages(p: nat, h: nat, n: nat, kids: seq<Entry>, va: nat, top: nat, output: nat,
                                          attributes: nat, pool: seq<nat>, left: nat)
    requires p >= 3 && Sized(p, h, kids) && 0 < n <= |kids| && StepsLeft(p, h, n, va, top, left)
    requires forall m :: 0 <= m < left ==> kids[Visited(p, h, n, va, m)].Word?
    requires FillTable(p, h, n, kids, va, top, output, attributes, pool).Filled?
    ensures var r := FillTable(p, h, n, kids, va, top, output, attributes, pool);
      multiset(Pages(r.value)) + multiset(r.pool) == multiset(Pages(kids)) + multiset(pool)
    decreases h, left, 1
  {
    hide Pow2, SizeLog2, BlockSize, Quot, Rem, FillEntry, Pages, Visited, StepsLeft;
    if va < top {
      var b := BlockSize(p, h);
      var i := Index(p, h, n, va);
      var Filled(e, pool') := FillEntry(p, h, kids[i], va, top, output, attributes, pool);
      VisitStep(p, h, n, va, top, left);
      assert kids[Visited(p, h, n, va, 0)].Word?;
      FreshEntryPages(p, h, kids[i], va, top, output, attributes, pool);
      PagesUpdate(kids, i, e);
      var va' := va + b;
      forall m | 0 <= m < left - 1 ensures kids[i := e][Visited(p, h, n, va', m)].Word? {
        assert kids[Visited(p, h, n, va, m + 1)].Word?;
      }
      FreshFillPages(p, h, n, kids[i := e], va + b, top, output + b, attributes, pool', left - 1);
      var r := FillTable(p, h, n, kids, va, top, output, attributes, pool);
      MultisetChain(multiset(Pages(r.value)), multiset(r.pool), multiset(Pages(kids[i := e])), multiset(pool'),
                    multiset(EntryPages(kids[i])), multiset(EntryPages(e)), multiset(Pages(kids)), multiset(pool));
    }
  }

  lemma {:induction false} FreshEntryPages(p: nat, h: nat, e: Entry, va: nat, top: nat, output: nat,
                                           attributes: nat, pool: seq<nat>)
    requires p >= 3 && e.Word?
    requires FillEntry(p, h, e, va, top, output, attributes, pool).Filled?
    ensures var r := FillEntry(p, h, e, va, top, output, attributes, pool);
      multiset(EntryPages(r.value)) + multiset(r.pool) == multiset(pool)
    decreases h, 0
  {
    hide Pow2, SizeLog2, BlockSize, Quot, Rem, PageDescriptor, BlockDescriptor, Zeroed, Pages, StepsLeft, Visited;
    var b := BlockSize(p, h);
    if h > 0 && !TakesBlock(b, va, top, output) {
      ChildSteps(p, h, va, top);
      ZeroedIsSized(p, h - 1);
      FreshFillPages(p, h - 1, Entries(p), Zeroed(p), va, Min(top, va + b - 1), output, attributes, pool[1..],
                     Entries(p));
      var t := FillTable(p, h - 1, Entries(p), Zeroed(p), va, Min(top, va + b - 1), output, attributes, pool[1..]);
      WordsHaveNoPages(Zeroed(p));
      AddPage(Pages(t.value), t.pool, [], pool[1..], pool[0]);
      assert pool == [pool[0]] + pool[1..];
    }
  }

  // ---------------------------------------------------------------- properness

  /** Filling writes only words that read back as what they are. */
  lemma {:induction false} FillTableProper(p: nat, h: nat, n: nat, kids: seq<Entry>, va: nat, top: nat, output: nat,
                                           attributes: nat, pool: seq<nat>)
    requires Granule(p) && Proper(p, h, kids) && Sized(p, h, kids) && 0 < n <= |kids|
    requires va < top ==> RegionOk(p, va, top, output, attributes)
    requires FillTable(p, h, n, kids, va, top, output, attributes, pool).Filled?
    ensures Proper(p, h, FillTable(p, h, n, kids, va, top, output, attributes, pool).value)
    decreases h, 1 + if va < top then top - va else 0
  {
    hide Pow2, SizeLog2, BlockSize, Quot, Rem, FillEntry, ProperEntry;
    if va < top {
      var b := BlockSize(p, h);
      var i := Index(p, h, n, va);
      var Filled(e, pool') := FillEntry(p, h, kids[i], va, top, output, attributes, pool);
      FillEntryProper(p, h, kids[i], va, top, output, attributes, pool);
      NextBlock(p, h, va);
      NextBlock(p, h, output);
      FillTableProper(p, h, n, kids[i := e], va + b, top, output + b, attributes, pool');
    }
  }

  lemma {:induction false} FillEntryProper(p: nat, h: nat, e: Entry, va: nat, top: nat, output: nat,
                                           attributes: nat, pool: seq<nat>)
    requires RegionOk(p, va, top, output, attributes) && ProperEntry(p, h, e) && SizedEntry(p, h, e)
    requires FillEntry(p, h, e, va, top, output, attributes, pool).Filled?
    ensures ProperEntry(p, h, FillEntry(p, h, e, va, top, output, attributes, pool).value)
    decreases h, 0
  {
    hide Pow2, SizeLog2, BlockSize, Quot, Rem, PageDescriptor, BlockDescriptor, Zeroed, IsBlock, IsValid, Attributes,
      OutputAddress;
    var b := BlockSize(p, h);
    BlockPages(p, h);
    if h > 0 {
      if TakesBlock(b, va, top, output) {
        BlockDescriptorFields(p, b, output, attributes);
      } else {
        var (page, kids, rest) := if e.Word? then (pool[0], Zeroed(p), pool[1..]) else (e.page, e.kids, pool);
        if e.Word? { ZeroedIsProper(p, h - 1); }
        FillTableProper(p, h - 1, Entries(p), kids, va, Min(top, va + b - 1), output, attributes, rest);
      }
    }
  }

  lemma ZeroedIsProper(p: nat, h: nat)
    requires p >= 3
    ensures Proper(p, h, Zeroed(p)) && Sized(p, h, Zeroed(p))
  {
  }
}
