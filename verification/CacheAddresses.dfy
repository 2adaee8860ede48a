/** The runs of the cache in terms of addresses alone: blocks, sets and bytes by division. */
module CacheAddresses {
  import opened AddressBits
  import opened CacheRuns
  import opened LruSpec
  import opened LruFetch

  ghost predicate Words(trace: seq<nat>) {
    forall i :: 0 <= i < |trace| ==> Word(trace[i])
  }

  /** What the names of powers stand for. */
  lemma Pow2Values(n: nat)
    ensures Pow2(0) == 1 && Pow2(n + 1) == 2 * Pow2(n) && Pow2(32) == 0x1_0000_0000
  {
    assert Pow2(8) == 256;
    assert Pow2(16) == 0x1_0000;
    assert Pow2(24) == 0x100_0000;
  }

  /** The number of the block an address lies in. */
  ghost function BlockOf(g: Geometry, a: nat): nat {
    Div(a, Pow2(g.blockBits))
  }

  /** The set a block goes to, and the tag it has there. */
  ghost function SetIn(g: Geometry, b: nat): nat {
    Mod(b, Pow2(g.setBits))
  }

  ghost function TagIn(g: Geometry, b: nat): nat {
    Div(b, Pow2(g.setBits))
  }

  lemma Fields(g: Geometry, a: nat)
    requires g.Fits() && Word(a)
    ensures g.SetOf(a) == SetIn(g, BlockOf(g, a)) && g.TagOf(a) == TagIn(g, BlockOf(g, a))
    ensures g.ByteIn(a) == a % Pow2(g.blockBits) < Pow2(g.blockBits)
    ensures SetIn(g, BlockOf(g, a)) < Pow2(g.setBits)
  {
    hide Pow2;
    FieldsAreDivMod(a, g.setBits, g.blockBits);
  }

  lemma SameTagSameSet(g: Geometry, b: nat, c: nat)
    ensures b == TagIn(g, b) * Pow2(g.setBits) + SetIn(g, b)
    ensures TagIn(g, b) == TagIn(g, c) && SetIn(g, b) == SetIn(g, c) ==> b == c
  {
    hide Pow2;
    var y := Pow2(g.setBits);
    assert b == b / y * y + b % y && c == c / y * y + c % y;
  }

  /** The other blocks of the same set touched behind position `i`. */
  ghost function Others(g: Geometry, trace: seq<nat>, i: int, b: nat): set<nat> {
    set j: nat | i < j < |trace| && BlockOf(g, trace[j]) != b && SetIn(g, BlockOf(g, trace[j])) == SetIn(g, b)
      :: BlockOf(g, trace[j])
  }

  lemma OthersMore(g: Geometry, trace: seq<nat>, x: nat, i: int, b: nat)
    requires i < |trace|
    ensures Others(g, trace + [x], i, b)
         == if BlockOf(g, x) != b && SetIn(g, BlockOf(g, x)) == SetIn(g, b)
            then Others(g, trace, i, b) + {BlockOf(g, x)}
            else Others(g, trace, i, b)
  {
    hide BlockOf, SetIn;
    var all := trace + [x];
    assert all[|trace|] == x && forall j :: 0 <= j < |trace| ==> all[j] == trace[j];
    var o, n := Others(g, trace, i, b), Others(g, all, i, b);
    forall y ensures y in n <==> y in o || (y == BlockOf(g, x) && y != b && SetIn(g, y) == SetIn(g, b)) {
      if y in n {
        var j: nat :| i < j < |all| && y == BlockOf(g, all[j]) && y != b && SetIn(g, y) == SetIn(g, b);
        if j < |trace| { assert BlockOf(g, trace[j]) in o; }
      }
      if y in o {
        var j: nat :| i < j < |trace| && y == BlockOf(g, trace[j]) && y != b && SetIn(g, y) == SetIn(g, b);
        assert BlockOf(g, all[j]) in n;
      }
      if y == BlockOf(g, x) && y != b && SetIn(g, y) == SetIn(g, b) {
        assert BlockOf(g, all[|trace|]) in n;
      }
    }
  }

  lemma OthersAtEnd(g: Geometry, trace: seq<nat>, b: nat)
    ensures Others(g, trace, |trace| - 1, b) == {}
  {
  }

  /** Behind an earlier position there are no fewer. */
  lemma OthersFromEarlier(g: Geometry, trace: seq<nat>, i: int, k: int, b: nat)
    requires i <= k
    ensures Others(g, trace, k, b) <= Others(g, trace, i, b)
  {
    hide BlockOf, SetIn;
    forall y | y in Others(g, trace, k, b) ensures y in Others(g, trace, i, b) {
      var j: nat :| k < j < |trace| && y == BlockOf(g, trace[j]) && y != b && SetIn(g, y) == SetIn(g, b);
      assert BlockOf(g, trace[j]) in Others(g, trace, i, b);
    }
  }

  /** The tags of these blocks. */
  ghost function TagsOf(g: Geometry, bs: set<nat>): set<int> {
    set b | b in bs :: TagIn(g, b)
  }

  lemma TagsOfMore(g: Geometry, bs: set<nat>, b: nat)
    ensures TagsOf(g, bs + {b}) == TagsOf(g, bs) + {TagIn(g, b)}
  {
    hide TagIn;
    forall t ensures t in TagsOf(g, bs + {b}) <==> t in TagsOf(g, bs) || t == TagIn(g, b) {
      assert b in bs + {b};
    }
  }

  /** Blocks of one set have different tags. */
  lemma {:induction false} AsManyTags(g: Geometry, bs: set<nat>, s: nat)
    requires forall b :: b in bs ==> SetIn(g, b) == s
    ensures |TagsOf(g, bs)| == |bs|
    decreases bs
  {
    hide TagIn, SetIn;
    if bs == {} {
      assert TagsOf(g, bs) == {};
    } else {
      var b :| b in bs;
      var rest := bs - {b};
      AsManyTags(g, rest, s);
      TagsOfMore(g, rest, b);
      assert rest + {b} == bs;
      forall c | c in rest ensures TagIn(g, c) != TagIn(g, b) { SameTagSameSet(g, b, c); }
      assert TagIn(g, b) !in TagsOf(g, rest);
    }
  }

  lemma OthersAreOfOneSet(g: Geometry, trace: seq<nat>, i: int, b: nat)
    ensures |TagsOf(g, Others(g, trace, i, b))| == |Others(g, trace, i, b)|
  {
    hide BlockOf, SetIn, TagsOf;
    forall y | y in Others(g, trace, i, b) ensures SetIn(g, y) == SetIn(g, b) {
      var j: nat :| i < j < |trace| && y == BlockOf(g, trace[j]) && y != b && SetIn(g, y) == SetIn(g, b);
    }
    AsManyTags(g, Others(g, trace, i, b), SetIn(g, b));
  }

  /** The tags used in a set, as the trace goes on. */
  ghost function History(g: Geometry, trace: seq<nat>, s: nat): seq<int>
    requires g.Fits()
  {
    TagsUsed(UsesAt(g, trace, s))
  }

  lemma HistoryMore(g: Geometry, trace: seq<nat>, x: nat, s: nat)
    requires g.Fits()
    ensures History(g, trace + [x], s)
         == if g.SetOf(x) == s then History(g, trace, s) + [g.TagOf(x)] else History(g, trace, s)
  {
    hide Geometry.SetOf, Geometry.TagOf, Geometry.ByteIn;
    assert (trace + [x])[..|trace|] == trace;
    var h, u := UsesAt(g, trace, s), Use(g.TagOf(x), g.ByteIn(x));
    assert UsesAt(g, trace + [x], s) == if g.SetOf(x) == s then h + [u] else h + [];
    assert h + [] == h && TagsUsed(h + [u]) == TagsUsed(h) + [u.tag];
  }

  lemma SinceMore(h: seq<int>, x: int, y: int)
    ensures Since(h + [y], x) == if y == x then {} else Since(h, x) + {y}
    ensures x in h + [y] <==> x in h || x == y
  {
    assert (h + [y])[..|h|] == h;
  }

  /** The last position at which a block was touched, and what its set was used for since. */
  lemma {:induction false} LastUse(g: Geometry, trace: seq<nat>, a: nat) returns (i: int)
    requires g.Fits() && Words(trace) && Word(a)
    ensures -1 <= i < |trace|
    ensures forall j :: i < j < |trace| ==> BlockOf(g, trace[j]) != BlockOf(g, a)
    ensures i >= 0 ==> BlockOf(g, trace[i]) == BlockOf(g, a)
    ensures var h, t := History(g, trace, g.SetOf(a)), g.TagOf(a);
            && (i >= 0 <==> t in h)
            && Since(h, t) == TagsOf(g, Others(g, trace, i, BlockOf(g, a)))
  {
    hide BlockOf, SetIn, TagIn, History, Since, Word, Others, TagsOf, Geometry.SetOf, Geometry.TagOf, Geometry.ByteIn;
    var b := BlockOf(g, a);
    if trace == [] {
      i := -1;
      NothingUsed(g, a);
    } else {
      var n := |trace| - 1;
      var rest, x := trace[..n], trace[n];
      assert trace == rest + [x];
      var h := History(g, rest, g.SetOf(a));
      Fields(g, a);
      Fields(g, x);
      SameTagSameSet(g, b, BlockOf(g, x));
      HistoryMore(g, rest, x, g.SetOf(a));
      SinceMore(h, g.TagOf(a), g.TagOf(x));
      var k := LastUse(g, rest, a);
      OthersMore(g, rest, x, k, b);
      if BlockOf(g, x) == b {
        i := n;
        OthersAtEnd(g, trace, b);
        NoTags(g);
      } else {
        i := k;
        TagsOfMore(g, Others(g, rest, k, b), BlockOf(g, x));
      }
    }
  }

  lemma NothingUsed(g: Geometry, a: nat)
    requires g.Fits()
    ensures History(g, [], g.SetOf(a)) == []
    ensures Since(History(g, [], g.SetOf(a)), g.TagOf(a)) == TagsOf(g, Others(g, [], -1, BlockOf(g, a))) == {}
  {
    hide Geometry.SetOf, Geometry.TagOf, BlockOf;
  }

  lemma NoTags(g: Geometry)
    ensures TagsOf(g, {}) == {}
  {
  }

  /** An access hits exactly when its block was touched before and fewer other blocks of its set
      were touched since than the set has lines. */
  lemma HitsByBlocks(g: Geometry, trace: seq<nat>, a: nat)
    requires g.Fits() && Words(trace) && Word(a)
    ensures ResultOf(g, trace, a) == HIT
       <==> exists i :: 0 <= i < |trace| && BlockOf(g, trace[i]) == BlockOf(g, a)
                        && |Others(g, trace, i, BlockOf(g, a))| < g.lineCount
  {
    hide BlockOf, Others, TagsOf, Since, Word, UsesAt, Geometry.SetOf, Geometry.TagOf;
    var b := BlockOf(g, a);
    HitsByRecency(g, trace, a);
    var last := LastUse(g, trace, a);
    OthersAreOfOneSet(g, trace, last, b);
    forall i | 0 <= i < |trace| && BlockOf(g, trace[i]) == b
      ensures i <= last && |Others(g, trace, last, b)| <= |Others(g, trace, i, b)| {
      OthersFromEarlier(g, trace, i, last, b);
      Subset(Others(g, trace, last, b), Others(g, trace, i, b));
    }
  }

  lemma {:induction false} Subset(x: set<nat>, y: set<nat>)
    requires x <= y
    ensures |x| <= |y|
    decreases x
  {
    if e :| e in x { Subset(x - {e}, y - {e}); }
  }

  /** The same, with nothing but addresses: P is the size of a block, S the number of sets. */
  lemma HitsByAddress(g: Geometry, trace: seq<nat>, a: nat)
    requires g.Fits() && Words(trace) && Word(a)
    ensures var P, S := Pow2(g.blockBits), Pow2(g.setBits);
            (ResultOf(g, trace, a) == HIT
             <==> exists i :: 0 <= i < |trace| && trace[i] / P == a / P
                    && |set j: nat | i < j < |trace| && trace[j] / P != a / P && trace[j] / P % S == a / P % S
                        :: trace[j] / P| < g.lineCount)
  {
    hide Pow2, ResultOf;
    HitsByBlocks(g, trace, a);
    var P, S := Pow2(g.blockBits), Pow2(g.setBits);
    forall i | 0 <= i < |trace|
      ensures Others(g, trace, i, a / P)
           == set j: nat | i < j < |trace| && trace[j] / P != a / P && trace[j] / P % S == a / P % S :: trace[j] / P {
    }
  }

  lemma {:induction false} SinceNever(h: seq<int>, x: int)
    requires x !in h
    ensures Since(h, x) == Elements(h)
  {
    if h != [] {
      var n := |h| - 1;
      SinceNever(h[..n], x);
      assert h == h[..n] + [h[n]];
    }
  }

  /** A tag that was used is held, or all lines are used. */
  lemma ColdIff(h: seq<int>, x: int, k: nat)
    requires k > 0
    ensures Kind(Held(h, k), x, k) == COLD_MISS <==> x !in h && |Elements(h)| < k
  {
    hide Since, Count;
    ColdMisses(h, k);
    HeldIsRecent(h, k);
    RecencyFacts(h);
    if x in h && |Elements(h)| < k {
      assert x in Elements(h);
    }
    if x in Held(h, k) {
      assert x in Elements(Recency(h));
    }
  }

  /** A miss is cold exactly when the block was never touched and fewer blocks of its set were than
      the set has lines; so a conflict is a miss of a block for whose set all lines are taken. */
  lemma ColdByAddress(g: Geometry, trace: seq<nat>, a: nat)
    requires g.Fits() && Words(trace) && Word(a)
    ensures var P, S := Pow2(g.blockBits), Pow2(g.setBits);
            (ResultOf(g, trace, a) == COLD_MISS
             <==> && (forall i :: 0 <= i < |trace| ==> trace[i] / P != a / P)
                  && |set j: nat | j < |trace| && trace[j] / P % S == a / P % S :: trace[j] / P| < g.lineCount)
  {
    hide Pow2, TagsOf, Since, Word, UsesAt, Geometry.SetOf, Geometry.TagOf, Held, Elements;
    var P, S, b := Pow2(g.blockBits), Pow2(g.setBits), BlockOf(g, a);
    var h := History(g, trace, g.SetOf(a));
    ColdIff(h, g.TagOf(a), g.lineCount);
    var last := LastUse(g, trace, a);
    if last < 0 {
      SinceNever(h, g.TagOf(a));
      OthersAreOfOneSet(g, trace, last, b);
      var touched := set j: nat | j < |trace| && trace[j] / P % S == a / P % S :: trace[j] / P;
      assert Others(g, trace, last, b) == touched;
    } else {
      assert trace[last] / P == a / P;
    }
  }

  /** What a line's record marks, from the position of the line's last miss on. */
  ghost predicate MarkedSince(g: Geometry, trace: seq<nat>, block: nat, m: nat, bytes: set<nat>)
    requires g.Fits() && Words(trace)
  {
    && m < |trace| && BlockOf(g, trace[m]) == block && ResultOf(g, trace[..m], trace[m]) != HIT
    && (forall j :: m < j < |trace| && BlockOf(g, trace[j]) == block ==> ResultOf(g, trace[..j], trace[j]) == HIT)
    && forall b :: b in bytes <==> TouchedSince(g, trace, block, m, b)
  }

  ghost predicate TouchedSince(g: Geometry, trace: seq<nat>, block: nat, m: nat, b: nat)
    requires g.Fits()
  {
    exists j :: m <= j < |trace| && BlockOf(g, trace[j]) == block && g.ByteIn(trace[j]) == b
  }

  lemma MarkedMore(g: Geometry, rest: seq<nat>, x: nat, block: nat, m: nat, bytes: set<nat>)
    requires g.Fits() && Words(rest + [x]) && Words(rest) && MarkedSince(g, rest, block, m, bytes)
    requires BlockOf(g, x) == block ==> ResultOf(g, rest, x) == HIT
    ensures MarkedSince(g, rest + [x], block, m, if BlockOf(g, x) == block then bytes + {g.ByteIn(x)} else bytes)
  {
    hide BlockOf, ResultOf, Geometry.ByteIn, Word;
    var all := rest + [x];
    assert all[|rest|] == x && all[..|rest|] == rest;
    forall j | 0 <= j < |rest| ensures all[j] == rest[j] && all[..j] == rest[..j] {}
    forall b ensures TouchedSince(g, all, block, m, b)
                <==> TouchedSince(g, rest, block, m, b) || (BlockOf(g, x) == block && g.ByteIn(x) == b) {
      if TouchedSince(g, rest, block, m, b) {
        var j :| m <= j < |rest| && BlockOf(g, rest[j]) == block && g.ByteIn(rest[j]) == b;
        assert BlockOf(g, all[j]) == block && g.ByteIn(all[j]) == b;
      }
      if BlockOf(g, x) == block && g.ByteIn(x) == b {
        assert BlockOf(g, all[|rest|]) == block && g.ByteIn(all[|rest|]) == b;
      }
    }
  }

  lemma MarkedNow(g: Geometry, rest: seq<nat>, x: nat)
    requires g.Fits() && Words(rest + [x]) && ResultOf(g, rest, x) != HIT
    ensures MarkedSince(g, rest + [x], BlockOf(g, x), |rest|, {g.ByteIn(x)})
  {
    hide BlockOf, ResultOf, Geometry.ByteIn, Word;
    var all := rest + [x];
    assert all[|rest|] == x && all[..|rest|] == rest;
    assert TouchedSince(g, all, BlockOf(g, x), |rest|, g.ByteIn(x));
  }

  lemma BytesMore(h: seq<Use>, u: Use, tag: int, k: nat)
    ensures BytesSinceMiss(h + [u], tag, k)
         == if u.tag != tag then BytesSinceMiss(h, tag, k)
            else if tag in Held(TagsUsed(h), k) then BytesSinceMiss(h, tag, k) + {u.byteIn}
            else {u.byteIn}
  {
    assert (h + [u])[..|h|] == h;
  }

  lemma UsesMore(g: Geometry, rest: seq<nat>, x: nat, s: nat)
    requires g.Fits()
    ensures g.SetOf(x) == s ==> UsesAt(g, rest + [x], s) == UsesAt(g, rest, s) + [Use(g.TagOf(x), g.ByteIn(x))]
    ensures g.SetOf(x) != s ==> UsesAt(g, rest + [x], s) == UsesAt(g, rest, s)
  {
    hide Geometry.SetOf, Geometry.TagOf, Geometry.ByteIn;
    assert (rest + [x])[..|rest|] == rest;
  }

  /** The bytes marked for a block's tag, once the block was touched. */
  lemma {:induction false} BytesByAddress(g: Geometry, trace: seq<nat>, a: nat) returns (m: nat)
    requires g.Fits() && Words(trace) && Word(a)
    requires exists i :: 0 <= i < |trace| && BlockOf(g, trace[i]) == BlockOf(g, a)
    ensures MarkedSince(g, trace, BlockOf(g, a), m,
                        BytesSinceMiss(UsesAt(g, trace, g.SetOf(a)), g.TagOf(a), g.lineCount))
    decreases |trace|
  {
    hide BlockOf, SetIn, TagIn, Word, UsesAt, Held, MarkedSince, BytesSinceMiss;
    hide Geometry.SetOf, Geometry.TagOf, Geometry.ByteIn;
    var n := |trace| - 1;
    var rest, x, b := trace[..n], trace[n], BlockOf(g, a);
    assert trace == rest + [x];
    var h, u := UsesAt(g, rest, g.SetOf(a)), Use(g.TagOf(x), g.ByteIn(x));
    Fields(g, a);
    Fields(g, x);
    SameTagSameSet(g, b, BlockOf(g, x));
    UsesMore(g, rest, x, g.SetOf(a));
    BytesMore(h, u, g.TagOf(a), g.lineCount);
    if BlockOf(g, x) == b && ResultOf(g, rest, x) != HIT {
      m := n;
      MarkedNow(g, rest, x);
    } else {
      if BlockOf(g, x) == b { HitsByBlocks(g, rest, x); }
      assert exists i :: 0 <= i < |rest| && BlockOf(g, rest[i]) == b by {
        if BlockOf(g, x) != b {
          var i :| 0 <= i < |trace| && BlockOf(g, trace[i]) == b;
          assert BlockOf(g, rest[i]) == b;
        }
      }
      m := BytesByAddress(g, rest, a);
      MarkedMore(g, rest, x, b, m, BytesSinceMiss(h, g.TagOf(a), g.lineCount));
    }
  }
}
