/** Symbol lookup in the dynamic linker: the GNU hash index with its Bloom filter beside a linear scan,
    and the two ways of binding a PLT slot. */
module GnuHash {
  import opened Common
  import opened Bytes
  import W = Word

  type Name = seq<Byte>

  datatype Bind = Local | Global | Weak

  datatype Sym = Sym(name: nat, value: nat, size: nat, info: nat, bind: Bind, defined: bool)

  datatype Table = Table(symoffset: nat, shift: nat, bloom: seq<bv64>, buckets: seq<nat>, chain: seq<nat>)

  datatype Index = NoIndex | Index(table: Table)

  /** A loaded object: where it is, its symbols, its names and its hash index if it has one. */
  datatype Object = Object(base: nat, syms: seq<Sym>, strtab: seq<Byte>, index: Index)

  // ------------------------------------------------------------ names and hashes

  /** The NUL-terminated string at the start of s. */
  function CStr(s: seq<Byte>): (r: Name)
    ensures r <= s && 0 !in r && (r == s || s[|r|] == 0)
  {
    if s == [] || s[0] == 0 then [] else [s[0]] + CStr(s[1..])
  }

  predicate Named(o: Object, i: nat, name: Name)
    requires i < |o.syms|
  {
    o.syms[i].name < |o.strtab| && CStr(o.strtab[o.syms[i].name..]) == name
  }

  function Hash(name: Name): (h: nat)
    ensures h < U32
  {
    if name == [] then 5381 else (Hash(name[..|name| - 1]) * 33 + name[|name| - 1]) % U32
  }

  function Pow33(k: nat): nat { if k == 0 then 1 else 33 * Pow33(k - 1) }

  /** The bytes of a name as the digits of a number to the base 33, the first one highest. */
  function Number(name: Name): nat { if name == [] then 0 else name[0] * Pow33(|name| - 1) + Number(name[1..]) }

  lemma Factor(a: nat, p: nat)
    ensures a * (33 * p) == 33 * (a * p)
  {}

  lemma {:induction false} NumberSnoc(name: Name)
    requires name != []
    ensures Number(name) == 33 * Number(name[..|name| - 1]) + name[|name| - 1]
  {
    var n := |name| - 1;
    if n > 0 {
      NumberSnoc(name[1..]);
      assert name[1..][..n - 1] == name[..n][1..] && name[1..][n - 1] == name[n];
      Factor(name[0], Pow33(n - 1));
    }
  }

  lemma ModStep(x: nat, c: nat)
    ensures (x % U32 * 33 + c) % U32 == (x * 33 + c) % U32
  {
    var q := x / U32;
    assert x == q * U32 + x % U32;
    assert x * 33 + c == (33 * q) * U32 + (x % U32 * 33 + c);
    DropU32(x % U32 * 33 + c, 33 * q);
  }

  lemma {:induction false} DropU32(x: nat, q: nat)
    ensures (q * U32 + x) % U32 == x % U32
  {
    if q > 0 {
      DropU32(x, q - 1);
      assert q * U32 + x == (q - 1) * U32 + x + U32;
    }
  }

  /** The hash of a name is that number on top of the start value, modulo 2^32. */
  lemma {:induction false} HashIsNumber(name: Name)
    ensures Hash(name) == (5381 * Pow33(|name|) + Number(name)) % 0x1_0000_0000
  {
    if name != [] {
      var n := |name| - 1;
      HashIsNumber(name[..n]);
      NumberSnoc(name);
      ModStep(5381 * Pow33(n) + Number(name[..n]), name[n]);
    }
  }

  method ComputeHash(name: Name) returns (h: nat)
    ensures h == Hash(name)
  {
    h := 5381;
    var p := 0;
    while p < |name|
      invariant p <= |name| && h == Hash(name[..p])
    {
      assert name[..p + 1][..p] == name[..p];
      h := (h * 32 + h + name[p]) % U32;
      p := p + 1;
    }
    assert name[..p] == name;
  }

  // ------------------------------------------------------------ what a lookup must find

  /** Symbol i is one that the object offers to others. */
  predicate Exported(o: Object, i: nat)
    requires i < |o.syms|
  {
    o.syms[i].defined && o.syms[i].bind != Local && o.syms[i].name != 0 && o.syms[i].name < |o.strtab|
  }

  predicate Offers(o: Object, i: nat, name: Name)
    requires i < |o.syms|
  {
    Exported(o, i) && Named(o, i, name)
  }

  function Address(o: Object, i: nat): nat
    requires i < |o.syms|
  {
    (o.base + o.syms[i].value) % TWO64
  }

  /** r is the address of the symbol the object offers under the name, or 0 if it offers none. */
  ghost predicate IsAnswer(o: Object, name: Name, r: nat) {
    && (forall i :: 0 <= i < |o.syms| && Offers(o, i, name) ==> r == (o.base + o.syms[i].value) % 0x1_0000_0000_0000_0000)
    && ((forall i :: 0 <= i < |o.syms| ==> !Offers(o, i, name)) ==> r == 0)
  }

  // ------------------------------------------------------------ well-formed objects

  /** What makes reading the tables safe. */
  predicate Shaped(o: Object) {
    && 0 < |o.syms|
    && (o.index.Index? ==> o.index.table.symoffset < |o.syms| ==> |o.index.table.chain| == |o.syms| - o.index.table.symoffset)
  }

  /** No symbol after the first two is all zero, and no two offered symbols have the same name. */
  ghost predicate PlainTable(o: Object) {
    && (forall i :: 1 < i < |o.syms| ==> !Null(o.syms[i]))
    && (forall i, j, name :: 0 <= i < j < |o.syms| && Offers(o, i, name) ==> !Offers(o, j, name))
  }

  predicate Null(s: Sym) { s.name == 0 && s.value == 0 && s.size == 0 && s.info == 0 }

  function SymHash(o: Object, i: nat): nat
    requires i < |o.syms| && o.syms[i].name < |o.strtab|
  {
    Hash(CStr(o.strtab[o.syms[i].name..]))
  }

  function BucketOf(o: Object, i: nat): nat
    requires i < |o.syms| && o.syms[i].name < |o.strtab| && o.index.Index? && o.index.table.buckets != []
  {
    SymHash(o, i) % |o.index.table.buckets|
  }

  function Shr(h: nat, shift: nat): nat { if shift == 0 then h else Shr(h / 2, shift - 1) }

  function Pow2(k: nat): (r: nat)
    ensures 0 < r
  {
    if k == 0 then 1 else 2 * Pow2(k - 1)
  }

  /** Shifting right divides by a power of two. */
  lemma {:induction false} ShrDivides(h: nat, shift: nat)
    ensures Shr(h, shift) == h / Pow2(shift)
    decreases shift
  {
    if 0 < shift {
      ShrDivides(h / 2, shift - 1);
      DivTwice(h, 2, Pow2(shift - 1));
    }
  }

  /** Both bits of a hash are set in the filter. */
  predicate InBloom(t: Table, h: nat)
    requires t.bloom != []
  {
    var word := t.bloom[(h / 64) % |t.bloom|];
    W.Has(word, h % 64) && W.Has(word, Shr(h, t.shift) % 64)
  }

  /** The index holds every offered symbol: sorted by bucket, with each bucket's first symbol, an end
      mark on its last one, the hashes, and both filter bits. */
  ghost predicate Indexed(o: Object)
    requires Shaped(o) && o.index.Index?
  {
    var t := o.index.table;
    && t.bloom != [] && t.buckets != [] && t.symoffset < |o.syms|
    && (forall i :: 0 <= i < |o.syms| && Exported(o, i) ==> t.symoffset <= i)
    && (forall i :: t.symoffset <= i < |o.syms| ==>
          && o.syms[i].name < |o.strtab| && (o.syms[i].defined ==> Exported(o, i))
          && t.chain[i - t.symoffset] / 2 == SymHash(o, i) / 2 && InBloom(t, SymHash(o, i)))
    && (forall i, j :: t.symoffset <= i < j < |o.syms| ==> BucketOf(o, i) <= BucketOf(o, j))
    && (forall i :: t.symoffset <= i < |o.syms| ==>
          && t.symoffset <= t.buckets[BucketOf(o, i)] <= i
          && BucketOf(o, t.buckets[BucketOf(o, i)]) == BucketOf(o, i))
    && (forall i :: t.symoffset <= i && i + 1 < |o.syms| ==> (t.chain[i - t.symoffset] % 2 == 1 <==> BucketOf(o, i) != BucketOf(o, i + 1)))
  }

  // ------------------------------------------------------------ the index lookup

  /** The filter never rejects a name that is there, and its bucket starts at or before it. */
  lemma NeverRejected(o: Object, name: Name, g: nat)
    requires Shaped(o) && o.index.Index? && Indexed(o) && g < |o.syms| && Offers(o, g, name)
    ensures var t := o.index.table;
            var start := t.buckets[Hash(name) % |t.buckets|];
            InBloom(t, Hash(name)) && t.symoffset <= start <= g && BucketOf(o, start) == Hash(name) % |t.buckets|
  {
    hide InBloom, Hash, CStr;
    assert SymHash(o, g) == Hash(name);
    assert o.index.table.symoffset <= g;
    assert BucketOf(o, g) == Hash(name) % |o.index.table.buckets|;
  }

  /** Before the wanted symbol, no symbol of its bucket carries the end mark. */
  lemma NotLast(o: Object, start: nat, idx: nat, g: nat)
    requires Shaped(o) && o.index.Index? && Indexed(o)
    requires o.index.table.symoffset <= start <= idx < g < |o.syms| && BucketOf(o, start) == BucketOf(o, g)
    ensures o.index.table.chain[idx - o.index.table.symoffset] % 2 == 0
  {
    hide InBloom, SymHash;
    assert BucketOf(o, start) == BucketOf(o, idx) == BucketOf(o, idx + 1) by {
      assert start == idx || BucketOf(o, start) <= BucketOf(o, idx);
      assert BucketOf(o, idx) <= BucketOf(o, idx + 1);
      assert idx + 1 == g || BucketOf(o, idx + 1) <= BucketOf(o, g);
    }
  }

  /** The two words differ at most in the end mark. */
  predicate SameHash(h: nat, c: nat) { h / 2 == c / 2 }

  predicate Hit(o: Object, i: nat, name: Name)
    requires i < |o.syms|
  {
    Named(o, i, name) && o.syms[i].defined
  }

  /** Walks a chain from `start`.  The limit on the number of steps never ends the walk: it could only
      do so where the symbol table ends. */
  method WalkChain(o: Object, name: Name, h: nat, start: nat, ghost g: nat) returns (found: nat)
    requires Shaped(o) && o.index.Index? && h == Hash(name)
    requires o.index.table.symoffset <= start < |o.syms|
    requires g <= |o.syms|
    requires g < |o.syms| ==> Indexed(o) && start <= g && Offers(o, g, name) && BucketOf(o, start) == BucketOf(o, g)
    ensures found <= |o.syms| && (found < |o.syms| ==> start <= found && Hit(o, found, name)) && found <= g
  {
    hide Indexed, BucketOf, CStr, Hash;
    var t := o.index.table;
    var maxSteps := |o.syms| - t.symoffset;
    var steps, idx := 0, start;
    found := |o.syms|;
    while true
      invariant found == |o.syms| && start <= idx < |o.syms| && steps == idx - start && idx <= g
      decreases |o.syms| - idx
    {
      if steps >= maxSteps {
        assert false;
        return;
      }
      steps := steps + 1;
      var c := t.chain[idx - t.symoffset];
      if idx == g { GoalMatches(o, name, g); } else if g < |o.syms| { NotLast(o, start, idx, g); }
      if SameHash(h, c) && o.syms[idx].name < |o.strtab| && Hit(o, idx, name) {
        return idx;
      }
      if c % 2 == 1 || idx + 1 >= |o.syms| {
        return;
      }
      idx := idx + 1;
    }
  }

  lemma GoalMatches(o: Object, name: Name, g: nat)
    requires Shaped(o) && o.index.Index? && Indexed(o) && g < |o.syms| && Offers(o, g, name)
    ensures o.index.table.symoffset <= g && SameHash(Hash(name), o.index.table.chain[g - o.index.table.symoffset]) && Hit(o, g, name)
  {
    assert SymHash(o, g) == Hash(name);
  }

  /** Looks a name up through the index. */
  method IndexLookup(o: Object, name: Name) returns (r: nat)
    requires Shaped(o)
    ensures r != 0 ==> exists i :: 0 <= i < |o.syms| && Hit(o, i, name) && r == Address(o, i)
    ensures o.index.NoIndex? ==> r == 0
    ensures o.index.Index? && Indexed(o) && PlainTable(o) ==> IsAnswer(o, name, r)
  {
    hide Indexed, InBloom, PlainTable, CStr, Hash, Address;
    if o.index.NoIndex? {
      return 0;
    }
    var t := o.index.table;
    if |t.buckets| == 0 || |t.bloom| == 0 || t.symoffset >= |o.syms| {
      NotIndexed(o);
      return 0;
    }
    var h := ComputeHash(name);
    ghost var g := FindOffer(o, name);
    if g < |o.syms| && Indexed(o) { NeverRejected(o, name, g); }
    var pass := PassesBloom(t, h);
    if !pass {
      return 0;
    }
    var start := t.buckets[h % |t.buckets|];
    if start < t.symoffset || start >= |o.syms| {
      return 0;
    }
    if g < |o.syms| && Indexed(o) { SameBucket(o, name, g, start); }
    var found := WalkChain(o, name, h, start, if Indexed(o) then g else |o.syms|);
    if found == |o.syms| {
      return 0;
    }
    if Indexed(o) && PlainTable(o) { HitIsAnswer(o, name, found); }
    r := Address(o, found);
  }

  method PassesBloom(t: Table, h: nat) returns (pass: bool)
    requires t.bloom != []
    ensures pass <==> InBloom(t, h)
  {
    var word := t.bloom[(h / 64) % |t.bloom|];
    var mask := W.SetMask(W.Bit(h % 64), W.Bit(Shr(h, t.shift) % 64));
    W.MaskOfTwo(word, h % 64, Shr(h, t.shift) % 64);
    pass := W.Covers(word, mask);
  }

  lemma NotIndexed(o: Object)
    requires Shaped(o) && o.index.Index?
    requires |o.index.table.buckets| == 0 || |o.index.table.bloom| == 0 || o.index.table.symoffset >= |o.syms|
    ensures !Indexed(o)
  {}

  lemma SameBucket(o: Object, name: Name, g: nat, start: nat)
    requires Shaped(o) && o.index.Index? && Indexed(o) && g < |o.syms| && Offers(o, g, name)
    requires start == o.index.table.buckets[Hash(name) % |o.index.table.buckets|]
    ensures o.index.table.symoffset <= start <= g && o.syms[start].name < |o.strtab| && BucketOf(o, start) == BucketOf(o, g)
  {
    hide InBloom, Hash, CStr;
    NeverRejected(o, name, g);
    assert SymHash(o, g) == Hash(name);
  }

  lemma OfferIsAnswer(o: Object, name: Name, i: nat)
    requires i < |o.syms| && Offers(o, i, name)
    ensures PlainTable(o) ==> IsAnswer(o, name, Address(o, i))
  {
    hide CStr, Null;
    if PlainTable(o) {
      forall j | 0 <= j < |o.syms| && Offers(o, j, name) ensures j == i {}
    }
  }

  /** Whatever a walk finds in a well-formed object is the one symbol offered under the name. */
  lemma HitIsAnswer(o: Object, name: Name, i: nat)
    requires Shaped(o) && o.index.Index? && Indexed(o) && PlainTable(o)
    requires o.index.table.symoffset <= i < |o.syms| && Hit(o, i, name)
    ensures IsAnswer(o, name, Address(o, i))
  {
    hide InBloom, Hash, CStr, Address, Null;
    assert Offers(o, i, name);
    OfferIsAnswer(o, name, i);
  }

  /** Some symbol that is offered under the name, or the number of symbols. */
  lemma FindOffer(o: Object, name: Name) returns (g: nat)
    ensures g <= |o.syms| && (g < |o.syms| ==> Offers(o, g, name))
    ensures g == |o.syms| ==> forall i :: 0 <= i < |o.syms| ==> !Offers(o, i, name)
  {
    if i :| 0 <= i < |o.syms| && Offers(o, i, name) {
      g := i;
    } else {
      g := |o.syms|;
    }
  }

  // ------------------------------------------------------------ the linear scan

  /** Looks a name up by going through all symbols. */
  method LinearLookup(o: Object, name: Name) returns (r: nat)
    requires Shaped(o)
    ensures r != 0 ==> exists i :: 0 <= i < |o.syms| && Offers(o, i, name) && r == Address(o, i)
    ensures PlainTable(o) ==> IsAnswer(o, name, r)
  {
    hide CStr, Address;
    var i := 0;
    while i < |o.syms|
      invariant i <= |o.syms| && forall j :: 0 <= j < i ==> !Offers(o, j, name)
    {
      var sym := o.syms[i];
      if Null(sym) && i > 1 {
        return 0;
      }
      if sym.name != 0 && sym.name < |o.strtab| && sym.defined && sym.bind != Local && Named(o, i, name) {
        OfferIsAnswer(o, name, i);
        return Address(o, i);
      }
      i := i + 1;
    }
    r := 0;
  }

  ghost predicate WellFormed(o: Object) {
    Shaped(o) && PlainTable(o) && (o.index.Index? ==> Indexed(o))
  }

  /** The address of the symbol that the object offers under the name, or 0. */
  ghost function Answer(o: Object, name: Name): nat {
    if exists i :: 0 <= i < |o.syms| && Offers(o, i, name) then
      var i :| 0 <= i < |o.syms| && Offers(o, i, name);
      Address(o, i)
    else 0
  }

  lemma AnswerIs(o: Object, name: Name, r: nat)
    requires PlainTable(o)
    ensures IsAnswer(o, name, r) <==> r == Answer(o, name)
  {
    hide CStr, Null;
    if i :| 0 <= i < |o.syms| && Offers(o, i, name) {
      forall j | 0 <= j < |o.syms| && Offers(o, j, name) ensures j == i {}
    }
  }

  /** In a well-formed object with an index, the index and the scan agree on every name. */
  method BothWays(o: Object, name: Name) returns (indexed: nat, scanned: nat)
    requires WellFormed(o) && o.index.Index?
    ensures indexed == scanned == Answer(o, name)
  {
    hide Indexed, PlainTable, IsAnswer, Answer;
    indexed := IndexLookup(o, name);
    scanned := LinearLookup(o, name);
    AnswerIs(o, name, indexed);
    AnswerIs(o, name, scanned);
  }

  // ------------------------------------------------------------ all loaded objects

  /** The answer of the first object, in link order, that has one. */
  ghost function Resolution(os: seq<Object>, name: Name): nat {
    if os == [] then 0 else if Answer(os[0], name) != 0 then Answer(os[0], name) else Resolution(os[1..], name)
  }

  /** A name resolves to the answer of the first object that has one, and to 0 exactly if none has. */
  lemma {:induction false} FirstInLinkOrder(os: seq<Object>, name: Name, k: nat)
    requires k < |os| && forall j :: 0 <= j < k ==> Answer(os[j], name) == 0
    ensures Answer(os[k], name) != 0 ==> Resolution(os, name) == Answer(os[k], name)
    ensures k == |os| - 1 && Answer(os[k], name) == 0 ==> Resolution(os, name) == 0
    decreases k
  {
    hide Answer;
    if 0 < k { FirstInLinkOrder(os[1..], name, k - 1); }
  }

  ghost predicate AllWellFormed(os: seq<Object>) { forall k :: 0 <= k < |os| ==> WellFormed(os[k]) }

  method Resolve(os: seq<Object>, name: Name) returns (addr: nat)
    requires AllWellFormed(os)
    ensures addr == Resolution(os, name)
  {
    hide Indexed, PlainTable, IsAnswer, Answer;
    var k := 0;
    while k < |os|
      invariant k <= |os| && Resolution(os, name) == Resolution(os[k..], name)
    {
      addr := IndexLookup(os[k], name);
      AnswerIs(os[k], name, addr);
      if addr != 0 {
        return;
      }
      addr := LinearLookup(os[k], name);
      AnswerIs(os[k], name, addr);
      if addr != 0 {
        return;
      }
      k := k + 1;
    }
    addr := 0;
  }

  datatype Binding = Stored(addr: nat) | Died

  /** What binding symbol `i` of an object eagerly comes to. */
  ghost function EagerBinding(os: seq<Object>, o: Object, i: nat): Binding {
    if i >= |o.syms| then Stored(0)
    else
      var addr := if o.syms[i].name < |o.strtab| then Resolution(os, CStr(o.strtab[o.syms[i].name..])) else 0;
      if addr == 0 && o.syms[i].bind != Weak then Died else Stored(addr)
  }

  method ResolveByIndex(os: seq<Object>, o: Object, i: nat) returns (addr: nat)
    requires AllWellFormed(os)
    ensures addr == if i < |o.syms| && o.syms[i].name < |o.strtab| then Resolution(os, CStr(o.strtab[o.syms[i].name..])) else 0
  {
    if i >= |o.syms| || o.syms[i].name >= |o.strtab| {
      return 0;
    }
    addr := Resolve(os, CStr(o.strtab[o.syms[i].name..]));
  }

  /** Eager binding of a JUMP_SLOT relocation. */
  method BindNow(os: seq<Object>, o: Object, i: nat) returns (b: Binding)
    requires AllWellFormed(os)
    ensures b == EagerBinding(os, o, i)
  {
    var addr := ResolveByIndex(os, o, i);
    if addr == 0 && i < |o.syms| && o.syms[i].bind != Weak {
      return Died;
    }
    b := Stored(addr);
  }

  /** Lazy binding on the first call through the slot. */
  method BindLazily(os: seq<Object>, o: Object, i: nat) returns (b: Binding)
    requires AllWellFormed(os) && i < |o.syms| && o.syms[i].name < |o.strtab|
    ensures b == var addr := Resolution(os, CStr(o.strtab[o.syms[i].name..])); if addr == 0 then Died else Stored(addr)
  {
    var addr := Resolve(os, CStr(o.strtab[o.syms[i].name..]));
    b := if addr == 0 then Died else Stored(addr);
  }

  /** The two ways of binding agree exactly when the symbol resolves or is not weak: an unresolved weak
      symbol is bound to 0 eagerly but is fatal lazily. */
  method BindBothWays(os: seq<Object>, o: Object, i: nat) returns (now: Binding, lazily: Binding)
    requires AllWellFormed(os) && i < |o.syms| && o.syms[i].name < |o.strtab|
    ensures now == lazily <==> Resolution(os, CStr(o.strtab[o.syms[i].name..])) != 0 || o.syms[i].bind != Weak
    ensures var addr := Resolution(os, CStr(o.strtab[o.syms[i].name..]));
            && (addr != 0 ==> now == Stored(addr) == lazily)
            && (addr == 0 ==> lazily == Died && now == if o.syms[i].bind == Weak then Stored(0) else Died)
  {
    now := BindNow(os, o, i);
    lazily := BindLazily(os, o, i);
  }

  // ------------------------------------------------------------ an object that is well formed

  /** One exported symbol "a" in a table with one bucket and a filter that lets everything pass. */
  function Example(): Object {
    Object(0x1000, [Sym(0, 0, 0, 0, Local, false), Sym(1, 0x20, 0, 18, Global, true)], [0, 97, 0],
           Index(Table(1, 0, [0xFFFF_FFFF_FFFF_FFFF], [1], [177671])))
  }

  lemma ExampleHash()
    ensures CStr(Example().strtab[1..]) == [97] && Hash([97]) == 177670 && SymHash(Example(), 1) == 177670
  {
    assert Example().strtab[1..] == [97, 0] && [97, 0][1..] == [0];
    assert CStr([0]) == [] && CStr([97, 0]) == [97];
    assert [97][..0] == [];
  }

  /** An index of one symbol. */
  lemma OneIsIndexed(o: Object)
    requires Shaped(o) && o.index.Index? && |o.syms| == 2 && !Exported(o, 0) && Exported(o, 1)
    requires var t := o.index.table;
             && t.symoffset == 1 && t.bloom != [] && t.buckets == [1] && o.syms[1].name < |o.strtab|
             && t.chain[0] / 2 == SymHash(o, 1) / 2 && InBloom(t, SymHash(o, 1))
    ensures Indexed(o)
  {
    hide SymHash, Exported, InBloom;
    assert BucketOf(o, 1) == 0;
  }

  lemma ExampleIsIndexed()
    ensures Indexed(Example())
  {
    ExampleInBloom();
    ExampleHash();
    hide CStr, Hash, InBloom, Indexed;
    OneIsIndexed(Example());
  }

  lemma ExampleInBloom()
    ensures InBloom(Example().index.table, 177670)
  {
    AllBits(177670 % 64);
    hide W.Has;
  }

  lemma ExampleIsWellFormed()
    ensures WellFormed(Example()) && IsAnswer(Example(), [97], 0x1020)
  {
    ExampleHash();
    ExampleIsIndexed();
    hide CStr, Hash, Indexed;
    var o := Example();
    assert Offers(o, 1, [97]) && !Exported(o, 0);
    OfferIsAnswer(o, [97], 1);
  }

  lemma AllBits(i: nat)
    requires i < 64
    ensures W.Has(0xFFFF_FFFF_FFFF_FFFF, i)
  {
    W.BitIsSet(i);
    hide W.Bit;
  }
}
