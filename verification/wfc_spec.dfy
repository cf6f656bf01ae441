/** The pure definitions the generator's methods are proved against (WFCGenerator.cs): option
    filtering, tile-set construction, propagation, materialisation of collapsed cells, the
    finalise pass and the selection of the next cell. */
module WfcSpec {
  import opened Wrappers
  import opened Enums
  import opened Cells
  import opened Tiles

  // ---------------------------------------------------------------------------------------------
  // The road-socket table

  /** The table the generator starts with: CROSSROAD, EMPTY, RIGHT_TURN, STRAIGHT, T_JUNCT_DOWN. */
  const Base5: seq<Sockets> := [[1, 1, 1, 1], [0, 0, 0, 0], [1, 1, 0, 0], [1, 0, 1, 0], [0, 1, 1, 1]]

  /** The table after a setup with five materials: Base5 followed by the seven new rotations,
      RIGHT_TURN2..4, STRAIGHT2 and T_JUNCT2..4. */
  const Full12: seq<Sockets> := Base5 + [[1, 0, 0, 1], [0, 0, 1, 1], [0, 1, 1, 0], [0, 1, 0, 1],
                                         [1, 1, 1, 0], [1, 1, 0, 1], [1, 0, 1, 1]]

  // ---------------------------------------------------------------------------------------------
  // CheckValid

  /** The entries of `a` that occur in `valid`, in their original order. */
  function Filter(a: seq<int>, valid: seq<int>): (r: seq<int>)
    ensures |r| <= |a|
  {
    if |a| == 0 then []
    else Filter(a[..|a| - 1], valid) + (if a[|a| - 1] in valid then [a[|a| - 1]] else [])
  }

  lemma {:induction false} FilterAppend(a: seq<int>, b: seq<int>, valid: seq<int>)
    ensures Filter(a + b, valid) == Filter(a, valid) + Filter(b, valid)
  {
    if |b| > 0 {
      assert (a + b)[..|a + b| - 1] == a + b[..|b| - 1];
      FilterAppend(a, b[..|b| - 1], valid);
    } else {
      assert a + b == a;
    }
  }

  /** An entry survives the filter exactly when it occurs in `a` and in `valid`. */
  lemma {:induction false} FilterMembership(a: seq<int>, valid: seq<int>)
    ensures forall x :: x in Filter(a, valid) <==> x in a && x in valid
  {
    if |a| > 0 {
      FilterMembership(a[..|a| - 1], valid);
      assert a == a[..|a| - 1] + [a[|a| - 1]];
    }
  }

  /** A sequence whose every entry is valid passes the filter unchanged. */
  lemma {:induction false} FilterAllValid(a: seq<int>, valid: seq<int>)
    requires forall k :: 0 <= k < |a| ==> a[k] in valid
    ensures Filter(a, valid) == a
  {
    if |a| > 0 {
      FilterAllValid(a[..|a| - 1], valid);
    }
  }

  /** Removing an invalid entry anywhere leaves the filtered sequence as it is. */
  lemma FilterRemoveInvalid(a: seq<int>, p: nat, valid: seq<int>)
    requires p < |a| && a[p] !in valid
    ensures Filter(a[..p] + a[p + 1..], valid) == Filter(a, valid)
  {
    assert a == a[..p] + [a[p]] + a[p + 1..];
    FilterAppend(a[..p] + [a[p]], a[p + 1..], valid);
    FilterAppend(a[..p], [a[p]], valid);
    FilterAppend(a[..p], a[p + 1..], valid);
    assert Filter([a[p]], valid) == [] by {
      assert [a[p]][..0] == [];
    }
  }

  /** One step of CheckValid's backward walk at index i, for a valid entry: it joins the
      walked suffix and the walk's invariant holds one index further down. */
  lemma CheckValidKeepStep(list: seq<int>, i: nat, valid: seq<int>, f: seq<int>)
    requires i < |list| && Filter(list[..i + 1], valid) + list[i + 1..] == f
    requires list[i] in valid
    ensures Filter(list[..i], valid) + list[i..] == f
  {
    var e := list[i];
    assert list[..i + 1] == list[..i] + [e];
    FilterAppend(list[..i], [e], valid);
    assert Filter([e], valid) == [e] by {
      assert [e][..0] == [];
    }
    assert list[i..] == [e] + list[i + 1..];
  }

  /** The same step for an invalid entry: List.Remove takes out its first occurrence, which may
      lie further to the front, and the filtered front is unchanged, so the invariant again holds
      one index further down. */
  lemma CheckValidDropStep(list: seq<int>, i: nat, valid: seq<int>, f: seq<int>)
    requires i < |list| && Filter(list[..i + 1], valid) + list[i + 1..] == f
    requires list[i] !in valid
    ensures var p := FirstIndex(list, list[i]);
      var l := list[..p] + list[p + 1..];
      i <= |l| && Filter(l[..i], valid) + l[i..] == f
  {
    var front := list[..i + 1];
    var p := FirstIndex(list, list[i]);
    var l := list[..p] + list[p + 1..];
    assert p <= i;
    FilterRemoveInvalid(front, p, valid);
    assert front[..p] == list[..p] && front[p + 1..] == list[p + 1..i + 1];
    assert l[..i] == list[..p] + list[p + 1..i + 1];
    assert l[i..] == list[i + 1..];
  }

  /** What CheckValid leaves in the array: the valid entries, in order, written over a prefix;
      the rest of the array keeps its old entries, so its length never changes. */
  function CheckValidSpec(a: seq<int>, valid: seq<int>): (r: seq<int>)
    ensures |r| == |a|
    ensures forall x :: x in r ==> x in a
  {
    var f := Filter(a, valid);
    FilterMembership(a, valid);
    assert forall x :: x in a[|f|..] ==> x in a;
    f + a[|f|..]
  }

  /** An entry of `a` that occurs in `valid` is still in the array after CheckValid. */
  lemma CheckValidKeeps(a: seq<int>, valid: seq<int>, x: int)
    requires x in a && x in valid
    ensures x in CheckValidSpec(a, valid)
  {
    FilterMembership(a, valid);
  }

  /** The first index holding v: the element List.Remove takes out. */
  function FirstIndex(s: seq<int>, v: int): (p: nat)
    requires v in s
    ensures p < |s| && s[p] == v && forall q :: 0 <= q < p ==> s[q] != v
  {
    if s[0] == v then 0 else 1 + FirstIndex(s[1..], v)
  }

  // ---------------------------------------------------------------------------------------------
  // RemoveDuplicatedTiles

  function DigitChar(d: int): char
    requires 0 <= d < 10
  {
    "0123456789"[d]
  }

  /** The decimal text of a non-negative integer. */
  function NatString(n: nat): (s: string)
    ensures |s| >= 1
    ensures n < 10 ==> s == [DigitChar(n)]
  {
    if n < 10 then [DigitChar(n)] else NatString(n / 10) + [DigitChar(n % 10)]
  }

  /** The decimal text of an integer, as string interpolation produces it. */
  function DecimalString(n: int): (s: string)
    ensures 0 <= n < 10 ==> s == [DigitChar(n)]
  {
    if n < 0 then "-" + NatString(-n) else NatString(n)
  }

  /** The dictionary key of a tile: its four sockets written one after the other, e.g. "0110". */
  function Key(s: Sockets): string
  {
    DecimalString(s[0]) + DecimalString(s[1]) + DecimalString(s[2]) + DecimalString(s[3])
  }

  predicate DigitSockets(s: Sockets)
  {
    forall i :: 0 <= i < 4 ==> 0 <= s[i] < 10
  }

  lemma DigitCharInjective(a: int, b: int)
    requires 0 <= a < 10 && 0 <= b < 10 && DigitChar(a) == DigitChar(b)
    ensures a == b
  {
  }

  /** For single-digit sockets the key identifies the signature. */
  lemma KeyInjective(s: Sockets, t: Sockets)
    requires DigitSockets(s) && DigitSockets(t)
    ensures Key(s) == Key(t) <==> s == t
  {
    if Key(s) == Key(t) {
      assert Key(s) == [DigitChar(s[0]), DigitChar(s[1]), DigitChar(s[2]), DigitChar(s[3])];
      assert Key(t) == [DigitChar(t[0]), DigitChar(t[1]), DigitChar(t[2]), DigitChar(t[3])];
      forall i | 0 <= i < 4 ensures s[i] == t[i] {
        assert Key(s)[i] == Key(t)[i];
        DigitCharInjective(s[i], t[i]);
      }
    }
  }

  /** With multi-digit socket values two different signatures share a key. */
  lemma KeyCollides()
    ensures [1, 11, 0, 0] != [11, 1, 0, 0] && Key([1, 11, 0, 0]) == Key([11, 1, 0, 0])
  {
    assert NatString(11) == "11";
  }

  /** A dictionary key for a signature; the lemmas below hold for any key function. */
  type KeyFn = Sockets -> string

  function KeysOf(ts: seq<Tile>, key: KeyFn): (r: seq<string>)
    ensures |r| == |ts| && forall u :: 0 <= u < |ts| ==> r[u] == key(ts[u].sockets)
  {
    seq(|ts|, u requires 0 <= u < |ts| => key(ts[u].sockets))
  }

  /** Keep the first tile for every key, in the order the keys were first met (a dictionary
      filled by ContainsKey/Add and read back through Values). */
  function Dedup(ts: seq<Tile>, key: KeyFn): (r: seq<Tile>)
    ensures |r| <= |ts|
  {
    if |ts| == 0 then []
    else
      var r := Dedup(ts[..|ts| - 1], key);
      var last := ts[|ts| - 1];
      if key(last.sockets) in KeysOf(r, key) then r else r + [last]
  }

  /** One more tile for Dedup: kept exactly when its key is new, which adds the key. */
  lemma DedupSnoc(ts: seq<Tile>, i: nat, key: KeyFn)
    requires i < |ts|
    ensures var r := Dedup(ts[..i], key);
      && (key(ts[i].sockets) in KeysOf(r, key) ==> Dedup(ts[..i + 1], key) == r)
      && (key(ts[i].sockets) !in KeysOf(r, key) ==>
            (Dedup(ts[..i + 1], key) == r + [ts[i]] && KeysOf(r + [ts[i]], key) == KeysOf(r, key) + [key(ts[i].sockets)]))
  {
    var prefix := ts[..i + 1];
    assert prefix[..i] == ts[..i] && prefix[i] == ts[i];
  }

  /** Tile i is the first in `ts` with its key. */
  predicate FirstWithKey(ts: seq<Tile>, i: nat, key: KeyFn)
    requires i < |ts|
  {
    forall j :: 0 <= j < i ==> key(ts[j].sockets) != key(ts[i].sockets)
  }

  /** Every kept tile comes from the input, and every input key is kept. */
  lemma {:induction false} DedupCovers(ts: seq<Tile>, key: KeyFn)
    ensures forall u :: 0 <= u < |Dedup(ts, key)| ==> Dedup(ts, key)[u] in ts
    ensures forall i :: 0 <= i < |ts| ==> key(ts[i].sockets) in KeysOf(Dedup(ts, key), key)
  {
    if |ts| > 0 {
      var init := ts[..|ts| - 1];
      DedupCovers(init, key);
      var r := Dedup(init, key);
      var d := Dedup(ts, key);
      forall i | 0 <= i < |ts| ensures key(ts[i].sockets) in KeysOf(d, key) {
        if i < |ts| - 1 {
          assert init[i] == ts[i];
          var u :| 0 <= u < |r| && KeysOf(r, key)[u] == key(ts[i].sockets);
          assert KeysOf(d, key)[u] == key(ts[i].sockets);
        } else if key(ts[i].sockets) !in KeysOf(r, key) {
          assert KeysOf(d, key)[|r|] == key(ts[i].sockets);
        }
      }
      forall u | 0 <= u < |d| ensures d[u] in ts {
        if u < |r| {
          assert d[u] == r[u];
          assert r[u] in init;
        }
      }
    }
  }

  /** No two kept tiles share a key. */
  lemma {:induction false} DedupKeysDistinct(ts: seq<Tile>, key: KeyFn)
    ensures forall u, v :: 0 <= u < v < |Dedup(ts, key)| ==> key(Dedup(ts, key)[u].sockets) != key(Dedup(ts, key)[v].sockets)
  {
    if |ts| > 0 {
      DedupKeysDistinct(ts[..|ts| - 1], key);
    }
  }

  /** The input positions Dedup keeps, in order. */
  function KeptIndices(ts: seq<Tile>, key: KeyFn): (idx: seq<nat>)
    ensures |idx| == |Dedup(ts, key)|
    ensures forall u :: 0 <= u < |idx| ==> idx[u] < |ts| && ts[idx[u]] == Dedup(ts, key)[u]
  {
    if |ts| == 0 then []
    else
      var init := ts[..|ts| - 1];
      var idx := KeptIndices(init, key);
      var r := Dedup(init, key);
      var last := ts[|ts| - 1];
      assert forall u :: 0 <= u < |idx| ==> idx[u] < |ts| && ts[idx[u]] == r[u] by {
        forall u | 0 <= u < |idx| ensures idx[u] < |ts| && ts[idx[u]] == r[u] {
          assert ts[idx[u]] == init[idx[u]];
        }
      }
      if key(last.sockets) in KeysOf(r, key) then
        assert Dedup(ts, key) == r;
        idx
      else
        assert Dedup(ts, key) == r + [last];
        idx + [|ts| - 1]
  }

  /** Being first with its key only depends on the inputs up to that position. */
  lemma FirstWithKeyPrefix(ts: seq<Tile>, n: nat, i: nat, key: KeyFn)
    requires i < n <= |ts|
    ensures FirstWithKey(ts[..n], i, key) <==> FirstWithKey(ts, i, key)
  {
    assert forall j :: 0 <= j <= i ==> ts[..n][j] == ts[j];
  }

  /** The last input is the first with its key exactly when the earlier inputs' result lacks that key. */
  lemma LastKeyFirst(ts: seq<Tile>, key: KeyFn)
    requires |ts| > 0
    ensures key(ts[|ts| - 1].sockets) !in KeysOf(Dedup(ts[..|ts| - 1], key), key) <==> FirstWithKey(ts, |ts| - 1, key)
  {
    var init := ts[..|ts| - 1];
    var r := Dedup(init, key);
    DedupCovers(init, key);
    if key(ts[|ts| - 1].sockets) !in KeysOf(r, key) {
      forall j | 0 <= j < |ts| - 1 ensures key(ts[j].sockets) != key(ts[|ts| - 1].sockets) {
        assert init[j] == ts[j];
      }
    } else {
      var u :| 0 <= u < |r| && KeysOf(r, key)[u] == key(ts[|ts| - 1].sockets);
      assert r[u] in init;
      var j :| 0 <= j < |init| && init[j] == r[u];
      assert key(ts[j].sockets) == key(ts[|ts| - 1].sockets);
    }
  }

  /** Every kept tile is the first input with its key, and kept tiles stay in input order. */
  lemma {:induction false} DedupOnlyFirst(ts: seq<Tile>, key: KeyFn)
    ensures forall u :: 0 <= u < |KeptIndices(ts, key)| ==> FirstWithKey(ts, KeptIndices(ts, key)[u], key)
    ensures forall u, v :: 0 <= u < v < |KeptIndices(ts, key)| ==> KeptIndices(ts, key)[u] < KeptIndices(ts, key)[v]
  {
    if |ts| > 0 {
      var init := ts[..|ts| - 1];
      var idx := KeptIndices(init, key);
      DedupOnlyFirst(init, key);
      forall u | 0 <= u < |KeptIndices(ts, key)| ensures FirstWithKey(ts, KeptIndices(ts, key)[u], key) {
        if u < |idx| {
          FirstWithKeyPrefix(ts, |ts| - 1, idx[u], key);
        } else {
          LastKeyFirst(ts, key);
        }
      }
    }
  }

  /** Every input that is the first with its key is kept. */
  lemma {:induction false} DedupKeepsFirst(ts: seq<Tile>, key: KeyFn)
    ensures forall i :: 0 <= i < |ts| && FirstWithKey(ts, i, key) ==> ts[i] in Dedup(ts, key)
  {
    if |ts| > 0 {
      var init := ts[..|ts| - 1];
      DedupKeepsFirst(init, key);
      forall i | 0 <= i < |ts| && FirstWithKey(ts, i, key) ensures ts[i] in Dedup(ts, key) {
        if i < |ts| - 1 {
          FirstWithKeyPrefix(ts, |ts| - 1, i, key);
          assert init[i] == ts[i];
          assert ts[i] in Dedup(init, key);
        } else {
          LastKeyFirst(ts, key);
        }
      }
    }
  }

  /** No two kept tiles share a signature, whatever the key. */
  lemma DedupSignaturesDistinct(ts: seq<Tile>, key: KeyFn)
    ensures forall u, v :: 0 <= u < v < |Dedup(ts, key)| ==> Dedup(ts, key)[u].sockets != Dedup(ts, key)[v].sockets
  {
    DedupKeysDistinct(ts, key);
  }

  /** When the key tells the input signatures apart, every input signature is kept. */
  lemma DedupSignaturesCovered(ts: seq<Tile>, key: KeyFn)
    requires forall i, j :: 0 <= i < |ts| && 0 <= j < |ts| && key(ts[i].sockets) == key(ts[j].sockets) ==> ts[i].sockets == ts[j].sockets
    ensures forall i :: 0 <= i < |ts| ==> ts[i].sockets in SocketsOf(Dedup(ts, key))
  {
    DedupCovers(ts, key);
    forall i | 0 <= i < |ts| ensures ts[i].sockets in SocketsOf(Dedup(ts, key)) {
      var r := Dedup(ts, key);
      var u :| 0 <= u < |r| && KeysOf(r, key)[u] == key(ts[i].sockets);
      assert r[u] in ts;
      var j :| 0 <= j < |ts| && ts[j] == r[u];
      assert key(ts[j].sockets) == key(ts[i].sockets);
      assert SocketsOf(r)[u] == ts[i].sockets;
    }
  }

  /** With single-digit sockets the string key tells signatures apart, so RemoveDuplicatedTiles
      keeps every input signature exactly once. */
  lemma DedupDigitSignatures(ts: seq<Tile>)
    requires forall i :: 0 <= i < |ts| ==> DigitSockets(ts[i].sockets)
    ensures forall u, v :: 0 <= u < v < |Dedup(ts, Key)| ==> Dedup(ts, Key)[u].sockets != Dedup(ts, Key)[v].sockets
    ensures forall i :: 0 <= i < |ts| ==> ts[i].sockets in SocketsOf(Dedup(ts, Key))
  {
    DedupSignaturesDistinct(ts, Key);
    forall i, j | 0 <= i < |ts| && 0 <= j < |ts| && Key(ts[i].sockets) == Key(ts[j].sockets)
      ensures ts[i].sockets == ts[j].sockets
    {
      KeyInjective(ts[i].sockets, ts[j].sockets);
    }
    DedupSignaturesCovered(ts, Key);
  }

  // ---------------------------------------------------------------------------------------------
  // CheckInitialSetup

  function SocketsOf(ts: seq<Tile>): (r: seq<Sockets>)
    ensures |r| == |ts| && forall u :: 0 <= u < |ts| ==> r[u] == ts[u].sockets
  {
    if |ts| == 0 then [] else SocketsOf(ts[..|ts| - 1]) + [ts[|ts| - 1].sockets]
  }

  /** One fresh tile for each of the first m table entries. */
  function BaseTiles(table: seq<Sockets>, m: nat): (r: seq<Tile>)
    requires m <= |table|
    ensures |r| == m && forall i :: 0 <= i < m ==> r[i] == NewTile(table[i])
  {
    seq(m, i requires 0 <= i < m => NewTile(table[i]))
  }

  /** The four fresh tiles Rotate(1), ..., Rotate(4) make from t. */
  function RotationsOf(t: Tile): (r: seq<Tile>)
    ensures |r| == 4 && forall j :: 0 <= j < 4 ==> r[j] == NewTile(Rotate(t.sockets, j + 1))
  {
    [NewTile(Rotate(t.sockets, 1)), NewTile(Rotate(t.sockets, 2)), NewTile(Rotate(t.sockets, 3)), NewTile(Rotate(t.sockets, 4))]
  }

  /** The rotations of every tile of `base`, tile by tile. */
  function Rotations(base: seq<Tile>): (r: seq<Tile>)
    ensures |r| == 4 * |base|
  {
    if |base| == 0 then [] else Rotations(base[..|base| - 1]) + RotationsOf(base[|base| - 1])
  }

  /** Every tile of `ts` analysed against the whole list. */
  function AnalyseAll(ts: seq<Tile>, table: seq<Sockets>): (r: seq<Tile>)
    ensures |r| == |ts| && SocketsOf(r) == SocketsOf(ts)
    ensures forall i :: 0 <= i < |ts| ==> r[i] == ts[i].(edges := AnalysedEdges(ts[i], ts, table))
  {
    seq(|ts|, i requires 0 <= i < |ts| => ts[i].(edges := AnalysedEdges(ts[i], ts, table)))
  }

  /** The outcome of CheckInitialSetup: whether it ran to the end, the blueprint tiles and the table. */
  datatype Setup = Setup(ok: bool, tiles: seq<Tile>, table: seq<Sockets>)

  /** CheckInitialSetup with m materials. It throws when a material has no table entry
      (m > |table|), leaving the base tiles made so far, and when it adds a table key that
      already exists (a new tile while m < |table| and the table is not yet complete),
      leaving the deduplicated, unanalysed tiles. */
  function SetupSpec(m: nat, table: seq<Sockets>): Setup
  {
    if m > |table| then Setup(false, BaseTiles(table, |table|), table)
    else
      var base := BaseTiles(table, m);
      var deduped := Dedup(base + Rotations(base), Key);
      if |table| != 12 && m < |deduped| && m < |table| then Setup(false, deduped, table)
      else
        var table' := if |table| != 12 && m < |deduped| then table + SocketsOf(deduped[|table|..]) else table;
        Setup(true, AnalyseAll(deduped, table'), table')
  }

  /** The table only ever grows by appending, and a complete table is left alone. */
  lemma SetupExtendsTable(m: nat, table: seq<Sockets>)
    ensures |table| <= |SetupSpec(m, table).table| && SetupSpec(m, table).table[..|table|] == table
    ensures |table| == 12 ==> SetupSpec(m, table) .table == table
    ensures !SetupSpec(m, table).ok ==> SetupSpec(m, table).table == table
  {
  }

  /** With materials, setup produces at least one tile. */
  lemma SetupNonEmpty(m: nat, table: seq<Sockets>)
    requires 1 <= m && SetupSpec(m, table).ok
    ensures |SetupSpec(m, table).tiles| >= 1
  {
    var base := BaseTiles(table, m);
    var all := base + Rotations(base);
    DedupCovers(all, Key);
    assert Key(all[0].sockets) in KeysOf(Dedup(all, Key), Key);
  }

  /** Deduplication of plain signatures, keeping the first occurrence of each. */
  function DedupSeq(ss: seq<Sockets>): seq<Sockets>
  {
    if |ss| == 0 then []
    else
      var r := DedupSeq(ss[..|ss| - 1]);
      if ss[|ss| - 1] in r then r else r + [ss[|ss| - 1]]
  }

  lemma DedupSeqSnoc(ss: seq<Sockets>, x: Sockets)
    ensures DedupSeq(ss + [x]) == if x in DedupSeq(ss) then DedupSeq(ss) else DedupSeq(ss) + [x]
  {
    assert (ss + [x])[..|ss|] == ss;
  }

  lemma SocketsOfAppend(a: seq<Tile>, b: seq<Tile>)
    ensures SocketsOf(a + b) == SocketsOf(a) + SocketsOf(b)
  {
  }

  /** Under a key that tells the signatures of `ts` apart, a list drawn from `ts` holds the key
      of a tile of `ts` exactly when it holds that tile's signature. */
  lemma KeyedIffSocketed(ts: seq<Tile>, r: seq<Tile>, x: Tile, key: KeyFn)
    requires KeySeparates(ts, key)
    requires forall u :: 0 <= u < |r| ==> r[u] in ts
    requires x in ts
    ensures key(x.sockets) in KeysOf(r, key) <==> x.sockets in SocketsOf(r)
  {
    if key(x.sockets) in KeysOf(r, key) {
      var u :| 0 <= u < |r| && KeysOf(r, key)[u] == key(x.sockets);
      assert SocketsOf(r)[u] == x.sockets;
    }
    if x.sockets in SocketsOf(r) {
      var u :| 0 <= u < |r| && SocketsOf(r)[u] == x.sockets;
      assert KeysOf(r, key)[u] == key(x.sockets);
    }
  }

  /** When the key tells the input signatures apart, deduplicating by key keeps the same
      signatures as deduplicating the signatures themselves. */
  predicate KeySeparates(ts: seq<Tile>, key: KeyFn)
  {
    forall i, j :: 0 <= i < |ts| && 0 <= j < |ts| && key(ts[i].sockets) == key(ts[j].sockets) ==> ts[i].sockets == ts[j].sockets
  }

  lemma KeySeparatesInit(ts: seq<Tile>, key: KeyFn)
    requires |ts| > 0 && KeySeparates(ts, key)
    ensures KeySeparates(ts[..|ts| - 1], key)
  {
    var init := ts[..|ts| - 1];
    assert forall i :: 0 <= i < |init| ==> init[i] == ts[i];
  }

  lemma DedupInitWithin(ts: seq<Tile>, key: KeyFn, r: seq<Tile>)
    requires |ts| > 0 && r == Dedup(ts[..|ts| - 1], key)
    ensures forall u :: 0 <= u < |r| ==> r[u] in ts
  {
    var init := ts[..|ts| - 1];
    DedupCovers(init, key);
    forall u | 0 <= u < |r| ensures r[u] in ts {
      assert r[u] in init;
      var j :| 0 <= j < |init| && init[j] == r[u];
      assert ts[j] == r[u];
    }
  }

  lemma {:induction false} DedupInjectiveSockets(ts: seq<Tile>, key: KeyFn)
    requires KeySeparates(ts, key)
    ensures SocketsOf(Dedup(ts, key)) == DedupSeq(SocketsOf(ts))
  {
    if |ts| > 0 {
      var init := ts[..|ts| - 1];
      var last := ts[|ts| - 1];
      KeySeparatesInit(ts, key);
      DedupInjectiveSockets(init, key);
      var r := Dedup(init, key);
      var s := SocketsOf(init) + [last.sockets];
      assert SocketsOf(ts) == s;
      DedupSeqSnoc(SocketsOf(init), last.sockets);
      DedupInitWithin(ts, key, r);
      KeyedIffSocketed(ts, r, last, key);
      if key(last.sockets) in KeysOf(r, key) {
        assert Dedup(ts, key) == r;
        assert DedupSeq(s) == SocketsOf(r);
      } else {
        assert Dedup(ts, key) == r + [last];
        assert DedupSeq(s) == SocketsOf(r) + [last.sockets];
        assert SocketsOf(r + [last]) == SocketsOf(r) + [last.sockets];
      }
    }
  }

  /** The signatures RemoveDuplicatedTiles keeps, for single-digit sockets. */
  lemma DedupDigitsSockets(ts: seq<Tile>)
    requires forall i :: 0 <= i < |ts| ==> DigitSockets(ts[i].sockets)
    ensures SocketsOf(Dedup(ts, Key)) == DedupSeq(SocketsOf(ts))
  {
    forall i, j | 0 <= i < |ts| && 0 <= j < |ts| && Key(ts[i].sockets) == Key(ts[j].sockets)
      ensures ts[i].sockets == ts[j].sockets
    {
      KeyInjective(ts[i].sockets, ts[j].sockets);
    }
    DedupInjectiveSockets(ts, Key);
  }

  /** The 25 signatures setup lists for five materials: the base table, then each base
      tile's four rotations. */
  const SetupFiveList: seq<Sockets> := [
    [1, 1, 1, 1], [0, 0, 0, 0], [1, 1, 0, 0], [1, 0, 1, 0], [0, 1, 1, 1],
    [1, 1, 1, 1], [1, 1, 1, 1], [1, 1, 1, 1], [1, 1, 1, 1], [0, 0, 0, 0],
    [0, 0, 0, 0], [0, 0, 0, 0], [0, 0, 0, 0], [1, 0, 0, 1], [0, 0, 1, 1],
    [0, 1, 1, 0], [1, 1, 0, 0], [0, 1, 0, 1], [1, 0, 1, 0], [0, 1, 0, 1],
    [1, 0, 1, 0], [1, 1, 1, 0], [1, 1, 0, 1], [1, 0, 1, 1], [0, 1, 1, 1]]

  /** The signatures of a tile's four rotations, written out. */
  lemma RotationsOfSockets(t: Tile)
    ensures var s := t.sockets;
      SocketsOf(RotationsOf(t)) == [[s[1], s[2], s[3], s[0]], [s[2], s[3], s[0], s[1]], [s[3], s[0], s[1], s[2]], [s[0], s[1], s[2], s[3]]]
  {
    var r := RotationsOf(t);
    assert r[..3][..2][..1] == [r[0]];
    assert r[..3][..2] == [r[0], r[1]];
    assert r[..3] == [r[0], r[1], r[2]];
  }

  lemma RotationsSnoc(base: seq<Tile>, k: nat)
    requires k < |base|
    ensures Rotations(base[..k + 1]) == Rotations(base[..k]) + RotationsOf(base[k])
  {
    assert base[..k + 1][..k] == base[..k];
  }

  lemma RotationsOne(base: seq<Tile>)
    requires |base| > 0
    ensures Rotations(base[..1]) == RotationsOf(base[0])
  {
    assert base[..1][..0] == [];
    assert [] + RotationsOf(base[0]) == RotationsOf(base[0]);
  }

  /** Rotations of a five-tile list, one tile after the other. */
  lemma RotationsFive(base: seq<Tile>)
    requires |base| == 5
    ensures Rotations(base) == RotationsOf(base[0]) + RotationsOf(base[1]) + RotationsOf(base[2]) + RotationsOf(base[3]) + RotationsOf(base[4])
  {
    RotationsOne(base);
    RotationsSnoc(base, 1);
    RotationsSnoc(base, 2);
    RotationsSnoc(base, 3);
    assert Rotations(base) == Rotations(base[..4]) + RotationsOf(base[4]);
  }

  lemma RotationsFive0()
    ensures SocketsOf(RotationsOf(NewTile(Base5[0]))) == [[1, 1, 1, 1], [1, 1, 1, 1], [1, 1, 1, 1], [1, 1, 1, 1]]
  {
    RotationsOfSockets(NewTile(Base5[0]));
  }

  lemma RotationsFive1()
    ensures SocketsOf(RotationsOf(NewTile(Base5[1]))) == [[0, 0, 0, 0], [0, 0, 0, 0], [0, 0, 0, 0], [0, 0, 0, 0]]
  {
    RotationsOfSockets(NewTile(Base5[1]));
  }

  lemma RotationsFive2()
    ensures SocketsOf(RotationsOf(NewTile(Base5[2]))) == [[1, 0, 0, 1], [0, 0, 1, 1], [0, 1, 1, 0], [1, 1, 0, 0]]
  {
    RotationsOfSockets(NewTile(Base5[2]));
  }

  lemma RotationsFive3()
    ensures SocketsOf(RotationsOf(NewTile(Base5[3]))) == [[0, 1, 0, 1], [1, 0, 1, 0], [0, 1, 0, 1], [1, 0, 1, 0]]
  {
    RotationsOfSockets(NewTile(Base5[3]));
  }

  lemma RotationsFive4()
    ensures SocketsOf(RotationsOf(NewTile(Base5[4]))) == [[1, 1, 1, 0], [1, 1, 0, 1], [1, 0, 1, 1], [0, 1, 1, 1]]
  {
    RotationsOfSockets(NewTile(Base5[4]));
  }

  /** The signatures of base + rotations for a five-tile base, piece by piece. */
  lemma SocketsFive(base: seq<Tile>)
    requires |base| == 5
    ensures SocketsOf(base + Rotations(base)) == SocketsOf(base) + (SocketsOf(RotationsOf(base[0])) + SocketsOf(RotationsOf(base[1]))
      + SocketsOf(RotationsOf(base[2])) + SocketsOf(RotationsOf(base[3])) + SocketsOf(RotationsOf(base[4])))
  {
    SocketsOfAppend(base, Rotations(base));
    RotationsFive(base);
    var r0, r1, r2, r3, r4 := RotationsOf(base[0]), RotationsOf(base[1]), RotationsOf(base[2]), RotationsOf(base[3]), RotationsOf(base[4]);
    SocketsOfAppend(r0 + r1 + r2 + r3, r4);
    SocketsOfAppend(r0 + r1 + r2, r3);
    SocketsOfAppend(r0 + r1, r2);
    SocketsOfAppend(r0, r1);
  }

  lemma SetupFiveListed()
    ensures SocketsOf(BaseTiles(Base5, 5) + Rotations(BaseTiles(Base5, 5))) == SetupFiveList
  {
    var base := BaseTiles(Base5, 5);
    SocketsFive(base);
    assert SocketsOf(base) == Base5;
    assert base[0] == NewTile(Base5[0]) && base[1] == NewTile(Base5[1]) && base[2] == NewTile(Base5[2]);
    assert base[3] == NewTile(Base5[3]) && base[4] == NewTile(Base5[4]);
    RotationsFive0();
    RotationsFive1();
    RotationsFive2();
    RotationsFive3();
    RotationsFive4();
    SetupFivePieces();
  }

  lemma SetupFivePieces()
    ensures Base5 + ([[1, 1, 1, 1], [1, 1, 1, 1], [1, 1, 1, 1], [1, 1, 1, 1]] + [[0, 0, 0, 0], [0, 0, 0, 0], [0, 0, 0, 0], [0, 0, 0, 0]]
     + [[1, 0, 0, 1], [0, 0, 1, 1], [0, 1, 1, 0], [1, 1, 0, 0]] + [[0, 1, 0, 1], [1, 0, 1, 0], [0, 1, 0, 1], [1, 0, 1, 0]]
     + [[1, 1, 1, 0], [1, 1, 0, 1], [1, 0, 1, 1], [0, 1, 1, 1]]) == SetupFiveList
  {
  }

  // DedupSeq evaluated on SetupFiveList one entry at a time.
  lemma DedupFive1()
    ensures DedupSeq(SetupFiveList[..1]) == [[1, 1, 1, 1]]
  {
    assert SetupFiveList[..1] == SetupFiveList[..0] + [SetupFiveList[0]];
    DedupSeqSnoc(SetupFiveList[..0], SetupFiveList[0]);
  }

  lemma DedupFive2()
    ensures DedupSeq(SetupFiveList[..2]) == [[1, 1, 1, 1], [0, 0, 0, 0]]
  {
    DedupFive1();
    assert SetupFiveList[..2] == SetupFiveList[..1] + [SetupFiveList[1]];
    DedupSeqSnoc(SetupFiveList[..1], SetupFiveList[1]);
  }

  lemma DedupFive3()
    ensures DedupSeq(SetupFiveList[..3]) == [[1, 1, 1, 1], [0, 0, 0, 0], [1, 1, 0, 0]]
  {
    DedupFive2();
    assert SetupFiveList[..3] == SetupFiveList[..2] + [SetupFiveList[2]];
    DedupSeqSnoc(SetupFiveList[..2], SetupFiveList[2]);
  }

  lemma DedupFive4()
    ensures DedupSeq(SetupFiveList[..4]) == [[1, 1, 1, 1], [0, 0, 0, 0], [1, 1, 0, 0], [1, 0, 1, 0]]
  {
    DedupFive3();
    assert SetupFiveList[..4] == SetupFiveList[..3] + [SetupFiveList[3]];
    DedupSeqSnoc(SetupFiveList[..3], SetupFiveList[3]);
  }

  lemma DedupFive5()
    ensures DedupSeq(SetupFiveList[..5]) == [[1, 1, 1, 1], [0, 0, 0, 0], [1, 1, 0, 0], [1, 0, 1, 0], [0, 1, 1, 1]]
  {
    DedupFive4();
    assert SetupFiveList[..5] == SetupFiveList[..4] + [SetupFiveList[4]];
    DedupSeqSnoc(SetupFiveList[..4], SetupFiveList[4]);
  }

  lemma DedupFive6()
    ensures DedupSeq(SetupFiveList[..6]) == [[1, 1, 1, 1], [0, 0, 0, 0], [1, 1, 0, 0], [1, 0, 1, 0], [0, 1, 1, 1]]
  {
    DedupFive5();
    assert SetupFiveList[..6] == SetupFiveList[..5] + [SetupFiveList[5]];
    DedupSeqSnoc(SetupFiveList[..5], SetupFiveList[5]);
  }

  lemma DedupFive7()
    ensures DedupSeq(SetupFiveList[..7]) == [[1, 1, 1, 1], [0, 0, 0, 0], [1, 1, 0, 0], [1, 0, 1, 0], [0, 1, 1, 1]]
  {
    DedupFive6();
    assert SetupFiveList[..7] == SetupFiveList[..6] + [SetupFiveList[6]];
    DedupSeqSnoc(SetupFiveList[..6], SetupFiveList[6]);
  }

  lemma DedupFive8()
    ensures DedupSeq(SetupFiveList[..8]) == [[1, 1, 1, 1], [0, 0, 0, 0], [1, 1, 0, 0], [1, 0, 1, 0], [0, 1, 1, 1]]
  {
    DedupFive7();
    assert SetupFiveList[..8] == SetupFiveList[..7] + [SetupFiveList[7]];
    DedupSeqSnoc(SetupFiveList[..7], SetupFiveList[7]);
  }

  lemma DedupFive9()
    ensures DedupSeq(SetupFiveList[..9]) == [[1, 1, 1, 1], [0, 0, 0, 0], [1, 1, 0, 0], [1, 0, 1, 0], [0, 1, 1, 1]]
  {
    DedupFive8();
    assert SetupFiveList[..9] == SetupFiveList[..8] + [SetupFiveList[8]];
    DedupSeqSnoc(SetupFiveList[..8], SetupFiveList[8]);
  }

  lemma DedupFive10()
    ensures DedupSeq(SetupFiveList[..10]) == [[1, 1, 1, 1], [0, 0, 0, 0], [1, 1, 0, 0], [1, 0, 1, 0], [0, 1, 1, 1]]
  {
    DedupFive9();
    assert SetupFiveList[..10] == SetupFiveList[..9] + [SetupFiveList[9]];
    DedupSeqSnoc(SetupFiveList[..9], SetupFiveList[9]);
  }

  lemma DedupFive11()
    ensures DedupSeq(SetupFiveList[..11]) == [[1, 1, 1, 1], [0, 0, 0, 0], [1, 1, 0, 0], [1, 0, 1, 0], [0, 1, 1, 1]]
  {
    DedupFive10();
    assert SetupFiveList[..11] == SetupFiveList[..10] + [SetupFiveList[10]];
    DedupSeqSnoc(SetupFiveList[..10], SetupFiveList[10]);
  }

  lemma DedupFive12()
    ensures DedupSeq(SetupFiveList[..12]) == [[1, 1, 1, 1], [0, 0, 0, 0], [1, 1, 0, 0], [1, 0, 1, 0], [0, 1, 1, 1]]
  {
    DedupFive11();
    assert SetupFiveList[..12] == SetupFiveList[..11] + [SetupFiveList[11]];
    DedupSeqSnoc(SetupFiveList[..11], SetupFiveList[11]);
  }

  lemma DedupFive13()
    ensures DedupSeq(SetupFiveList[..13]) == [[1, 1, 1, 1], [0, 0, 0, 0], [1, 1, 0, 0], [1, 0, 1, 0], [0, 1, 1, 1]]
  {
    DedupFive12();
    assert SetupFiveList[..13] == SetupFiveList[..12] + [SetupFiveList[12]];
    DedupSeqSnoc(SetupFiveList[..12], SetupFiveList[12]);
  }

  lemma DedupFive14()
    ensures DedupSeq(SetupFiveList[..14]) == [[1, 1, 1, 1], [0, 0, 0, 0], [1, 1, 0, 0], [1, 0, 1, 0], [0, 1, 1, 1], [1, 0, 0, 1]]
  {
    DedupFive13();
    assert SetupFiveList[..14] == SetupFiveList[..13] + [SetupFiveList[13]];
    DedupSeqSnoc(SetupFiveList[..13], SetupFiveList[13]);
  }

  lemma DedupFive15()
    ensures DedupSeq(SetupFiveList[..15]) == [[1, 1, 1, 1], [0, 0, 0, 0], [1, 1, 0, 0], [1, 0, 1, 0], [0, 1, 1, 1], [1, 0, 0, 1], [0, 0, 1, 1]]
  {
    DedupFive14();
    assert SetupFiveList[..15] == SetupFiveList[..14] + [SetupFiveList[14]];
    DedupSeqSnoc(SetupFiveList[..14], SetupFiveList[14]);
  }

  lemma DedupFive16()
    ensures DedupSeq(SetupFiveList[..16]) == [[1, 1, 1, 1], [0, 0, 0, 0], [1, 1, 0, 0], [1, 0, 1, 0], [0, 1, 1, 1], [1, 0, 0, 1], [0, 0, 1, 1], [0, 1, 1, 0]]
  {
    DedupFive15();
    assert SetupFiveList[..16] == SetupFiveList[..15] + [SetupFiveList[15]];
    DedupSeqSnoc(SetupFiveList[..15], SetupFiveList[15]);
  }

  lemma DedupFive17()
    ensures DedupSeq(SetupFiveList[..17]) == [[1, 1, 1, 1], [0, 0, 0, 0], [1, 1, 0, 0], [1, 0, 1, 0], [0, 1, 1, 1], [1, 0, 0, 1], [0, 0, 1, 1], [0, 1, 1, 0]]
  {
    DedupFive16();
    assert SetupFiveList[..17] == SetupFiveList[..16] + [SetupFiveList[16]];
    DedupSeqSnoc(SetupFiveList[..16], SetupFiveList[16]);
  }

  lemma DedupFive18()
    ensures DedupSeq(SetupFiveList[..18]) == [[1, 1, 1, 1], [0, 0, 0, 0], [1, 1, 0, 0], [1, 0, 1, 0], [0, 1, 1, 1], [1, 0, 0, 1], [0, 0, 1, 1], [0, 1, 1, 0], [0, 1, 0, 1]]
  {
    DedupFive17();
    assert SetupFiveList[..18] == SetupFiveList[..17] + [SetupFiveList[17]];
    DedupSeqSnoc(SetupFiveList[..17], SetupFiveList[17]);
  }

  lemma DedupFive19()
    ensures DedupSeq(SetupFiveList[..19]) == [[1, 1, 1, 1], [0, 0, 0, 0], [1, 1, 0, 0], [1, 0, 1, 0], [0, 1, 1, 1], [1, 0, 0, 1], [0, 0, 1, 1], [0, 1, 1, 0], [0, 1, 0, 1]]
  {
    DedupFive18();
    assert SetupFiveList[..19] == SetupFiveList[..18] + [SetupFiveList[18]];
    DedupSeqSnoc(SetupFiveList[..18], SetupFiveList[18]);
  }

  lemma DedupFive20()
    ensures DedupSeq(SetupFiveList[..20]) == [[1, 1, 1, 1], [0, 0, 0, 0], [1, 1, 0, 0], [1, 0, 1, 0], [0, 1, 1, 1], [1, 0, 0, 1], [0, 0, 1, 1], [0, 1, 1, 0], [0, 1, 0, 1]]
  {
    DedupFive19();
    assert SetupFiveList[..20] == SetupFiveList[..19] + [SetupFiveList[19]];
    DedupSeqSnoc(SetupFiveList[..19], SetupFiveList[19]);
  }

  lemma DedupFive21()
    ensures DedupSeq(SetupFiveList[..21]) == [[1, 1, 1, 1], [0, 0, 0, 0], [1, 1, 0, 0], [1, 0, 1, 0], [0, 1, 1, 1], [1, 0, 0, 1], [0, 0, 1, 1], [0, 1, 1, 0], [0, 1, 0, 1]]
  {
    DedupFive20();
    assert SetupFiveList[..21] == SetupFiveList[..20] + [SetupFiveList[20]];
    DedupSeqSnoc(SetupFiveList[..20], SetupFiveList[20]);
  }

  lemma DedupFive22()
    ensures DedupSeq(SetupFiveList[..22]) == [[1, 1, 1, 1], [0, 0, 0, 0], [1, 1, 0, 0], [1, 0, 1, 0], [0, 1, 1, 1], [1, 0, 0, 1], [0, 0, 1, 1], [0, 1, 1, 0], [0, 1, 0, 1], [1, 1, 1, 0]]
  {
    DedupFive21();
    assert SetupFiveList[..22] == SetupFiveList[..21] + [SetupFiveList[21]];
    DedupSeqSnoc(SetupFiveList[..21], SetupFiveList[21]);
  }

  lemma DedupFive23()
    ensures DedupSeq(SetupFiveList[..23]) == [[1, 1, 1, 1], [0, 0, 0, 0], [1, 1, 0, 0], [1, 0, 1, 0], [0, 1, 1, 1], [1, 0, 0, 1], [0, 0, 1, 1], [0, 1, 1, 0], [0, 1, 0, 1], [1, 1, 1, 0], [1, 1, 0, 1]]
  {
    DedupFive22();
    assert SetupFiveList[..23] == SetupFiveList[..22] + [SetupFiveList[22]];
    DedupSeqSnoc(SetupFiveList[..22], SetupFiveList[22]);
  }

  lemma DedupFive24()
    ensures DedupSeq(SetupFiveList[..24]) == [[1, 1, 1, 1], [0, 0, 0, 0], [1, 1, 0, 0], [1, 0, 1, 0], [0, 1, 1, 1], [1, 0, 0, 1], [0, 0, 1, 1], [0, 1, 1, 0], [0, 1, 0, 1], [1, 1, 1, 0], [1, 1, 0, 1], [1, 0, 1, 1]]
  {
    DedupFive23();
    assert SetupFiveList[..24] == SetupFiveList[..23] + [SetupFiveList[23]];
    DedupSeqSnoc(SetupFiveList[..23], SetupFiveList[23]);
  }

  lemma DedupFive25()
    ensures DedupSeq(SetupFiveList[..25]) == [[1, 1, 1, 1], [0, 0, 0, 0], [1, 1, 0, 0], [1, 0, 1, 0], [0, 1, 1, 1], [1, 0, 0, 1], [0, 0, 1, 1], [0, 1, 1, 0], [0, 1, 0, 1], [1, 1, 1, 0], [1, 1, 0, 1], [1, 0, 1, 1]]
  {
    DedupFive24();
    assert SetupFiveList[..25] == SetupFiveList[..24] + [SetupFiveList[24]];
    DedupSeqSnoc(SetupFiveList[..24], SetupFiveList[24]);
  }

  /** Rotating single-digit signatures gives single-digit signatures. */
  lemma {:induction false} RotationsDigits(base: seq<Tile>)
    requires forall i :: 0 <= i < |base| ==> DigitSockets(base[i].sockets)
    ensures forall i :: 0 <= i < |Rotations(base)| ==> DigitSockets(Rotations(base)[i].sockets)
  {
    if |base| > 0 {
      var init := base[..|base| - 1];
      RotationsDigits(init);
      var last := RotationsOf(base[|base| - 1]);
      forall i | 0 <= i < |Rotations(base)| ensures DigitSockets(Rotations(base)[i].sockets) {
        if i >= |Rotations(init)| {
          assert Rotations(base)[i] == last[i - |Rotations(init)|];
        } else {
          assert Rotations(base)[i] == Rotations(init)[i];
        }
      }
    }
  }

  lemma Base5Digits()
    ensures forall i :: 0 <= i < |Base5| ==> DigitSockets(Base5[i])
  {
    assert DigitSockets(Base5[0]) && DigitSockets(Base5[1]) && DigitSockets(Base5[2]);
    assert DigitSockets(Base5[3]) && DigitSockets(Base5[4]);
  }

  lemma DedupFiveAll()
    ensures DedupSeq(SetupFiveList) == Full12
  {
    DedupFive25();
    assert SetupFiveList[..25] == SetupFiveList;
  }

  lemma DedupFiveListed(all: seq<Tile>)
    requires SocketsOf(all) == SetupFiveList
    requires forall i :: 0 <= i < |all| ==> DigitSockets(all[i].sockets)
    ensures SocketsOf(Dedup(all, Key)) == Full12
  {
    DedupDigitsSockets(all);
    DedupFiveAll();
  }

  lemma FiveDigits(table: seq<Sockets>, m: nat)
    requires table == Base5 && m == 5
    ensures forall i :: 0 <= i < |BaseTiles(table, m) + Rotations(BaseTiles(table, m))| ==> DigitSockets((BaseTiles(table, m) + Rotations(BaseTiles(table, m)))[i].sockets)
  {
    var base := BaseTiles(table, m);
    Base5Digits();
    assert forall i :: 0 <= i < |base| ==> DigitSockets(base[i].sockets);
    RotationsDigits(base);
  }

  /** Setup with five materials yields exactly the twelve signatures of Full12, in table order. */
  lemma FiveMaterialTiles(table: seq<Sockets>, m: nat)
    requires table == Base5 && m == 5
    ensures SocketsOf(Dedup(BaseTiles(table, m) + Rotations(BaseTiles(table, m)), Key)) == Full12
  {
    SetupFiveListed();
    FiveDigits(table, m);
    DedupFiveListed(BaseTiles(table, m) + Rotations(BaseTiles(table, m)));
  }

  // ---------------------------------------------------------------------------------------------
  // Which tables setup can leave behind

  /** Every rotation of a complete-table signature is a complete-table signature. */
  lemma Full12Closed(s: Sockets, j: int)
    requires s in Full12 && 1 <= j <= 4
    ensures Rotate(s, j) in Full12
  {
    var r := Rotate(s, j);
    if j == 1 {
      assert r == [s[1], s[2], s[3], s[0]];
    } else if j == 2 {
      assert r == [s[2], s[3], s[0], s[1]];
    } else if j == 3 {
      assert r == [s[3], s[0], s[1], s[2]];
    } else {
      assert r == s;
    }
  }

  /** A table that holds every rotation of each of its entries. */
  predicate RotationClosed(table: seq<Sockets>)
  {
    forall s: Sockets, j: int :: s in table && 1 <= j <= 4 ==> Rotate(s, j) in table
  }

  lemma Full12RotationClosed()
    ensures RotationClosed(Full12)
  {
    forall s: Sockets, j: int | s in Full12 && 1 <= j <= 4 ensures Rotate(s, j) in Full12 {
      Full12Closed(s, j);
    }
  }

  /** The rotations of tiles whose signatures lie in a rotation-closed table lie in it too. */
  lemma {:induction false} RotationsWithin(base: seq<Tile>, table: seq<Sockets>)
    requires RotationClosed(table)
    requires forall i :: 0 <= i < |base| ==> base[i].sockets in table
    ensures forall i :: 0 <= i < |Rotations(base)| ==> Rotations(base)[i].sockets in table
  {
    if |base| > 0 {
      var init := base[..|base| - 1];
      RotationsWithin(init, table);
      var t := base[|base| - 1];
      var last := RotationsOf(t);
      forall i | 0 <= i < |Rotations(base)| ensures Rotations(base)[i].sockets in table {
        if i >= |Rotations(init)| {
          var j := i - |Rotations(init)|;
          assert Rotations(base)[i] == last[j];
        } else {
          assert Rotations(base)[i] == Rotations(init)[i];
        }
      }
    }
  }

  lemma {:induction false} SubsetCard<X>(a: set<X>, b: set<X>)
    requires a <= b
    ensures |a| <= |b|
    decreases b
  {
    if b != {} {
      var x :| x in b;
      SubsetCard(a - {x}, b - {x});
    }
  }

  lemma {:induction false} ElementsCard<X>(s: seq<X>)
    ensures |set x | x in s| <= |s|
    ensures (forall i, j :: 0 <= i < j < |s| ==> s[i] != s[j]) ==> |set x | x in s| == |s|
  {
    if |s| > 0 {
      var init := s[..|s| - 1];
      ElementsCard(init);
      assert (set x | x in s) == (set x | x in init) + {s[|s| - 1]};
    }
  }

  /** A list without repetitions drawn from `u` is no longer than `u`. */
  lemma Pigeonhole<X>(s: seq<X>, u: seq<X>)
    requires forall i, j :: 0 <= i < j < |s| ==> s[i] != s[j]
    requires forall i :: 0 <= i < |s| ==> s[i] in u
    ensures |s| <= |u|
  {
    ElementsCard(s);
    ElementsCard(u);
    SubsetCard(set x | x in s, set x | x in u);
  }

  lemma SocketsOfSuffix(ts: seq<Tile>, k: nat)
    requires k <= |ts|
    ensures SocketsOf(ts[k..]) == SocketsOf(ts)[k..]
  {
  }

  /** Five materials on the initial table: setup completes and extends the table to Full12,
      one blueprint tile per entry, in table order. */
  lemma SetupFive()
    ensures SetupSpec(5, Base5).ok
    ensures SetupSpec(5, Base5).table == Full12
    ensures SocketsOf(SetupSpec(5, Base5).tiles) == Full12
  {
    var base := BaseTiles(Base5, 5);
    var deduped := Dedup(base + Rotations(base), Key);
    FiveMaterialTiles(Base5, 5);
    SocketsOfSuffix(deduped, 5);
    assert Base5 + Full12[5..] == Full12;
  }

  /** The sizes SetupFive leaves: twelve blueprint tiles and twelve table entries. */
  lemma SetupFiveSizes()
    ensures SetupSpec(5, Base5).ok
    ensures |SetupSpec(5, Base5).tiles| == 12 && |SetupSpec(5, Base5).table| == 12
  {
    SetupFive();
    assert |SocketsOf(SetupSpec(5, Base5).tiles)| == |Full12|;
  }

  /** Deduplicated tiles made from the entries of a rotation-closed table: each signature comes
      from the table, so there are at most as many tiles as entries. */
  lemma DedupWithin(m: nat, table: seq<Sockets>, key: KeyFn)
    requires m <= |table| && RotationClosed(table)
    ensures var base := BaseTiles(table, m); var d := Dedup(base + Rotations(base), key);
      |d| <= |table| && forall i :: 0 <= i < |d| ==> d[i].sockets in table
  {
    var base := BaseTiles(table, m);
    var all := base + Rotations(base);
    var deduped := Dedup(all, key);
    RotationsWithin(base, table);
    assert forall i :: 0 <= i < |all| ==> all[i].sockets in table;
    DedupCovers(all, key);
    DedupSignaturesDistinct(all, key);
    var ss := SocketsOf(deduped);
    forall i | 0 <= i < |ss| ensures ss[i] in table {
      var k :| 0 <= k < |all| && all[k] == deduped[i];
    }
    Pigeonhole(ss, table);
  }

  /** On the complete table setup never extends it, completes for every material count the
      table covers, and yields at most one tile per entry, each with a listed signature. */
  lemma SetupComplete(m: nat, table: seq<Sockets>)
    requires table == Full12
    ensures SetupSpec(m, table).table == table
    ensures SetupSpec(m, table).ok <==> m <= 12
    ensures SetupSpec(m, table).ok ==> |SetupSpec(m, table).tiles| <= 12
    ensures SetupSpec(m, table).ok ==> forall i :: 0 <= i < |SetupSpec(m, table).tiles| ==> SetupSpec(m, table).tiles[i].sockets in table
  {
    if m <= 12 {
      Full12RotationClosed();
      DedupWithin(m, table, Key);
    }
  }

  /** The tables setup can leave behind: the initial five entries or the complete twelve, and a
      completed setup never has more tiles than entries. */
  lemma SetupKeepsTables(m: nat, table: seq<Sockets>)
    requires table == Base5 || table == Full12
    ensures SetupSpec(m, table).table == Base5 || SetupSpec(m, table).table == Full12
    ensures SetupSpec(m, table).ok ==> |SetupSpec(m, table).tiles| <= |SetupSpec(m, table).table|
  {
    if table == Full12 {
      SetupComplete(m, table);
    } else if m == 5 {
      SetupFive();
    }
  }
}
