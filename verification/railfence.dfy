/** `railfence(mode, text, key)` of index.js: the zig-zag transposition.
    Encryption writes the characters onto the rails of a zig-zag walk and reads
    the rails top to bottom; decryption replays the walk over `text.length`
    positions, ranks every position by (rail, position) and reads the text
    through that ranking. */
module RailFenceCipher {
  import opened Runtime

  const KeyTooSmall := "Key must be >=2"

  /** `new Array(n)` throws a RangeError for any length of 2^32 or more. */
  const MaxArrayLength := 0xFFFF_FFFF
  const InvalidArrayLength := "Invalid array length"

  /** The walk's state: the current rail and the direction (+1 down, -1 up). */
  datatype Cursor = Cursor(rail: int, dir: int)

  /** One step of the walk: the cursor moves one rail in its direction, and
      the direction turns round on reaching the top or bottom rail. */
  function Advance(c: Cursor, rails: int): (n: Cursor)
    ensures n.rail == c.rail + c.dir
    ensures rails >= 2 && InBounds(c, rails) ==> InBounds(n, rails)
  {
    var rail := c.rail + c.dir;
    Cursor(rail, if rail == rails - 1 || rail == 0 then -c.dir else c.dir)
  }

  /** Going down there is a rail below; going up there is a rail above. */
  predicate InBounds(c: Cursor, rails: int)
  {
    || (c.dir == 1 && 0 <= c.rail < rails - 1)
    || (c.dir == -1 && 0 < c.rail <= rails - 1)
  }

  /** The cursor after `i` steps from rail 0 going down.  It never leaves the
      rails, so `arr[rail]` and the entries of `pat` are always valid. */
  function Walk(i: nat, rails: int): (c: Cursor)
    requires rails >= 2
    ensures InBounds(c, rails)
  {
    if i == 0 then Cursor(0, 1) else Advance(Walk(i - 1, rails), rails)
  }

  /** The rail that position `i` of the text is written on. */
  function Rail(i: nat, rails: int): (r: nat)
    requires rails >= 2
    ensures r < rails
  {
    Walk(i, rails).rail
  }

  /** The closed form of the zig-zag: a triangle wave of period 2 * rails - 2. */
  function Zigzag(i: nat, rails: int): (r: nat)
    requires rails >= 2
    ensures r < rails
  {
    var p := i % (2 * rails - 2);
    if p < rails then p else 2 * rails - 2 - p
  }

  /** A multiple of `m` strictly between `-m` and `m` is zero. */
  lemma SmallMultipleIsZero(d: int, m: int)
    requires m > 0 && -m < d * m < m
    ensures d == 0
  {
  }

  /** The phase `i mod m` advances by one and wraps to 0 after `m - 1`. */
  lemma ModSucc(a: nat, m: int)
    requires m > 0
    ensures (a + 1) % m == if a % m < m - 1 then a % m + 1 else 0
  {
    var q, p := a / m, a % m;
    var q', p' := (a + 1) / m, (a + 1) % m;
    assert a == q * m + p;
    assert a + 1 == q' * m + p';
    if p < m - 1 {
      assert (q' - q) * m == p + 1 - p';
      SmallMultipleIsZero(q' - q, m);
    } else {
      assert (q' - q - 1) * m == -p';
      SmallMultipleIsZero(q' - q - 1, m);
    }
  }

  /** The step-by-step walk of the source is the triangle wave. */
  lemma {:induction false} WalkIsZigzag(i: nat, rails: int)
    requires rails >= 2
    ensures Walk(i, rails).rail == Zigzag(i, rails)
    ensures Walk(i, rails).dir == if i % (2 * rails - 2) < rails - 1 then 1 else -1
  {
    if i > 0 {
      WalkIsZigzag(i - 1, rails);
      ModSucc(i - 1, 2 * rails - 2);
    }
  }

  /** With two rails the walk alternates 0, 1, 0, 1, ... */
  lemma TwoRailsAlternate(i: nat)
    ensures Rail(i, 2) == i % 2
  {
    WalkIsZigzag(i, 2);
  }

  // ---------------------------------------------------------------------
  // Encryption: the rails, concatenated top to bottom.

  /** The characters of `t` that land on rail `r`, in text order: what
      `arr[r]` holds once the walk is over. */
  function OnRail(t: string, rails: int, r: int): (s: string)
    requires rails >= 2
    ensures |s| == Count(|t|, rails, r)
    decreases |t|
  {
    if t == [] then []
    else OnRail(t[..|t| - 1], rails, r) + (if Rail(|t| - 1, rails) == r then [t[|t| - 1]] else [])
  }

  /** How many of the first `n` positions are on rail `r`. */
  function Count(n: nat, rails: int, r: int): nat
    requires rails >= 2
  {
    if n == 0 then 0 else Count(n - 1, rails, r) + (if Rail(n - 1, rails) == r then 1 else 0)
  }

  /** How many of the first `n` positions are on a rail above `r`. */
  function Below(n: nat, rails: int, r: int): nat
    requires rails >= 2
  {
    if n == 0 then 0 else Below(n - 1, rails, r) + (if Rail(n - 1, rails) < r then 1 else 0)
  }

  /** Rails 0 .. m-1 of `t`, joined in order. */
  function Fence(t: string, rails: int, m: nat): string
    requires rails >= 2
  {
    if m == 0 then [] else Fence(t, rails, m - 1) + OnRail(t, rails, m - 1)
  }

  /** The encryption branch: the characters are dealt onto the rails along the
      zig-zag walk, and the rails are then read one after another, top rail
      first. */
  function Encode(t: string, rails: int): (s: string)
    requires rails >= 2
    ensures |s| == |t|
  {
    FenceLength(t, rails, rails);
    BelowAll(|t|, rails);
    Fence(t, rails, rails)
  }

  /** "HELLO" on two rails: H, L, O go on the top rail and E, L on the
      bottom one, so the ciphertext is "HLOEL". */
  lemma HelloTwoRails()
    ensures Encode("HELLO", 2) == "HLOEL"
  {
    HelloTopRail();
    HelloBottomRail();
    assert Fence("HELLO", 2, 1) == "HLO";
  }

  lemma HelloTopRail()
    ensures OnRail("HELLO", 2, 0) == "HLO"
  {
    TwoRailsAlternate(0);
    TwoRailsAlternate(1);
    TwoRailsAlternate(2);
    TwoRailsAlternate(3);
    TwoRailsAlternate(4);
    assert OnRail("H", 2, 0) == "H" by { assert "H"[..0] == ""; }
    assert OnRail("HE", 2, 0) == "H" by { assert "HE"[..1] == "H"; }
    assert OnRail("HEL", 2, 0) == "HL" by { assert "HEL"[..2] == "HE"; }
    assert OnRail("HELL", 2, 0) == "HL" by { assert "HELL"[..3] == "HEL"; }
    assert "HELLO"[..4] == "HELL";
  }

  lemma HelloBottomRail()
    ensures OnRail("HELLO", 2, 1) == "EL"
  {
    TwoRailsAlternate(0);
    TwoRailsAlternate(1);
    TwoRailsAlternate(2);
    TwoRailsAlternate(3);
    TwoRailsAlternate(4);
    assert OnRail("H", 2, 1) == "" by { assert "H"[..0] == ""; }
    assert OnRail("HE", 2, 1) == "E" by { assert "HE"[..1] == "H"; }
    assert OnRail("HEL", 2, 1) == "E" by { assert "HEL"[..2] == "HE"; }
    assert OnRail("HELL", 2, 1) == "EL" by { assert "HELL"[..3] == "HEL"; }
    assert "HELLO"[..4] == "HELL";
  }

  // ---------------------------------------------------------------------
  // Decryption: the index map `idxs`.

  /** `idxs[i]`: the place in the ciphertext of the character written at
      position `i`, i.e. the positions on higher rails plus the earlier
      positions on its own rail. */
  function Rank(n: nat, rails: int, i: nat): (k: nat)
    requires rails >= 2 && i < n
    ensures k < n
  {
    var r := Rail(i, rails);
    CountGrows(i, n, rails);
    BelowStep(n, rails, r);
    BelowMonotone(n, rails, r + 1, rails);
    BelowAll(n, rails);
    Below(n, rails, r) + Count(i, rails, r)
  }

  /** Decryption: position `i` of the plaintext is read from the ciphertext
      at the rank of position `i`. */
  function Decode(c: string, rails: int): (r: string)
    requires rails >= 2
    ensures |r| == |c|
  {
    seq(|c|, i requires 0 <= i < |c| => c[Rank(|c|, rails, i)])
  }

  // ---------------------------------------------------------------------
  // Counting lemmas.

  lemma {:induction false} CountGrows(i: nat, n: nat, rails: int)
    requires rails >= 2 && i < n
    ensures Count(i, rails, Rail(i, rails)) < Count(n, rails, Rail(i, rails))
  {
    if n > i + 1 {
      CountGrows(i, n - 1, rails);
    }
  }

  lemma {:induction false} BelowStep(n: nat, rails: int, r: int)
    requires rails >= 2
    ensures Below(n, rails, r + 1) == Below(n, rails, r) + Count(n, rails, r)
  {
    if n > 0 {
      BelowStep(n - 1, rails, r);
    }
  }

  lemma {:induction false} BelowMonotone(n: nat, rails: int, r: int, s: int)
    requires rails >= 2 && r <= s
    ensures Below(n, rails, r) <= Below(n, rails, s)
  {
    if n > 0 {
      BelowMonotone(n - 1, rails, r, s);
    }
  }

  lemma {:induction false} BelowNone(n: nat, rails: int)
    requires rails >= 2
    ensures Below(n, rails, 0) == 0
  {
    if n > 0 {
      BelowNone(n - 1, rails);
    }
  }

  lemma {:induction false} BelowAll(n: nat, rails: int)
    requires rails >= 2
    ensures Below(n, rails, rails) == n
  {
    if n > 0 {
      BelowAll(n - 1, rails);
    }
  }

  /** The first `m` rails joined hold the positions on rails above `m`. */
  lemma {:induction false} FenceLength(t: string, rails: int, m: nat)
    requires rails >= 2
    ensures |Fence(t, rails, m)| == Below(|t|, rails, m)
  {
    if m == 0 {
      BelowNone(|t|, rails);
    } else {
      FenceLength(t, rails, m - 1);
      BelowStep(|t|, rails, m - 1);
    }
  }

  /** Position `i` of `t` is entry `Count(i, ...)` of its own rail. */
  lemma {:induction false} OnRailAt(t: string, rails: int, i: nat)
    requires rails >= 2 && i < |t|
    ensures Count(i, rails, Rail(i, rails)) < |OnRail(t, rails, Rail(i, rails))|
    ensures OnRail(t, rails, Rail(i, rails))[Count(i, rails, Rail(i, rails))] == t[i]
    decreases |t|
  {
    var r := Rail(i, rails);
    var p := t[..|t| - 1];
    if i < |t| - 1 {
      OnRailAt(p, rails, i);
    }
  }

  /** Entry `k` of rail `r` sits after all the higher rails in the fence. */
  lemma {:induction false} FenceAt(t: string, rails: int, m: nat, r: nat, k: nat)
    requires rails >= 2 && r < m && k < |OnRail(t, rails, r)|
    ensures Below(|t|, rails, r) + k < |Fence(t, rails, m)|
    ensures Fence(t, rails, m)[Below(|t|, rails, r) + k] == OnRail(t, rails, r)[k]
  {
    FenceLength(t, rails, m - 1);
    BelowStep(|t|, rails, r);
    if r != m - 1 {
      BelowMonotone(|t|, rails, r + 1, m - 1);
      FenceAt(t, rails, m - 1, r, k);
    }
  }

  /** The character written at position `i` is found at `idxs[i]` of the
      ciphertext. */
  lemma EncodeAt(t: string, rails: int, i: nat)
    requires rails >= 2 && i < |t|
    ensures Rank(|t|, rails, i) < |Encode(t, rails)|
    ensures Encode(t, rails)[Rank(|t|, rails, i)] == t[i]
  {
    OnRailAt(t, rails, i);
    FenceAt(t, rails, rails, Rail(i, rails), Count(i, rails, Rail(i, rails)));
  }

  /** Rail Fence decryption undoes encryption. */
  lemma DecodeEncode(t: string, rails: int)
    requires rails >= 2
    ensures Decode(Encode(t, rails), rails) == t
  {
    forall i | 0 <= i < |t| ensures Decode(Encode(t, rails), rails)[i] == t[i] {
      EncodeAt(t, rails, i);
    }
  }

  // ---------------------------------------------------------------------
  // The index map is a bijection on [0, n).

  /** Distinct positions get distinct places. */
  lemma RankInjective(n: nat, rails: int, i: nat, j: nat)
    requires rails >= 2 && i < j < n
    ensures Rank(n, rails, i) != Rank(n, rails, j)
  {
    var ri, rj := Rail(i, rails), Rail(j, rails);
    if ri == rj {
      CountGrows(i, j, rails);
    } else if ri < rj {
      CountGrows(i, n, rails);
      BelowStep(n, rails, ri);
      BelowMonotone(n, rails, ri + 1, rj);
    } else {
      CountGrows(j, n, rails);
      BelowStep(n, rails, rj);
      BelowMonotone(n, rails, rj + 1, ri);
    }
  }

  /** The set of values of a sequence without repeats has one element per
      position. */
  lemma {:induction false} DistinctCardinality(s: seq<int>)
    requires forall a, b :: 0 <= a < b < |s| ==> s[a] != s[b]
    ensures |Values(s)| == |s|
  {
    if s != [] {
      var p := s[..|s| - 1];
      DistinctCardinality(p);
      assert Values(s) == Values(p) + {s[|s| - 1]};
    }
  }

  function Values(s: seq<int>): set<int>
  {
    set x | x in s
  }

  /** The positions 0 .. n-1 in order. */
  function Positions(n: nat): (s: seq<int>)
    ensures |s| == n && forall i :: 0 <= i < n ==> s[i] == i
  {
    seq(n, i => i)
  }

  /** `n` distinct values below `n` take every value below `n`. */
  lemma Pigeonhole(s: seq<int>)
    requires forall a :: 0 <= a < |s| ==> 0 <= s[a] < |s|
    requires forall a, b :: 0 <= a < b < |s| ==> s[a] != s[b]
    ensures forall k :: 0 <= k < |s| ==> k in s
  {
    var A, B := Values(s), Values(Positions(|s|));
    DistinctCardinality(s);
    DistinctCardinality(Positions(|s|));
    forall x | x in A ensures x in B {
      assert Positions(|s|)[x] == x;
    }
    assert B * A == A;
    assert |B - A| == 0;
    forall k | 0 <= k < |s| ensures k in s {
      assert Positions(|s|)[k] == k;
      assert k in B;
    }
  }

  /** The whole of `idxs`, position by position. */
  function Ranks(n: nat, rails: int): (s: seq<nat>)
    requires rails >= 2
    ensures |s| == n
  {
    seq(n, i requires 0 <= i < n => Rank(n, rails, i))
  }

  /** `idxs` maps [0, n) onto [0, n) one to one; it depends only on the
      length and the number of rails. */
  lemma RankBijective(n: nat, rails: int)
    requires rails >= 2
    ensures forall i :: 0 <= i < n ==> Ranks(n, rails)[i] < n
    ensures forall i, j :: 0 <= i < j < n ==> Ranks(n, rails)[i] != Ranks(n, rails)[j]
    ensures forall k :: 0 <= k < n ==> k in Ranks(n, rails)
  {
    var s := Ranks(n, rails);
    forall i, j | 0 <= i < j < n ensures s[i] != s[j] {
      RankInjective(n, rails, i, j);
    }
    Pigeonhole(s);
  }

  /** Rail Fence encryption undoes decryption too. */
  lemma EncodeDecode(c: string, rails: int)
    requires rails >= 2
    ensures Encode(Decode(c, rails), rails) == c
  {
    var d := Decode(c, rails);
    var n := |c|;
    RankBijective(n, rails);
    forall k | 0 <= k < n ensures Encode(d, rails)[k] == c[k] {
      assert k in Ranks(n, rails);
      var i :| 0 <= i < n && Ranks(n, rails)[i] == k;
      EncodeAt(d, rails, i);
    }
  }

  /** The characters of `t` on rail `r`, as a multiset. */
  ghost function OnRailBag(t: string, rails: int, r: int): multiset<char>
    requires rails >= 2
    decreases |t|
  {
    if t == [] then multiset{} else
      var last := if Rail(|t| - 1, rails) == r then multiset{t[|t| - 1]} else multiset{};
      OnRailBag(t[..|t| - 1], rails, r) + last
  }

  /** The characters of `t` on rails 0 .. m-1, as a multiset. */
  ghost function AboveBag(t: string, rails: int, m: int): multiset<char>
    requires rails >= 2
    decreases |t|
  {
    if t == [] then multiset{} else
      var last := if Rail(|t| - 1, rails) < m then multiset{t[|t| - 1]} else multiset{};
      AboveBag(t[..|t| - 1], rails, m) + last
  }

  lemma {:induction false} OnRailBagIsOnRail(t: string, rails: int, r: int)
    requires rails >= 2
    ensures multiset(OnRail(t, rails, r)) == OnRailBag(t, rails, r)
    decreases |t|
  {
    if t != [] {
      OnRailBagIsOnRail(t[..|t| - 1], rails, r);
    }
  }

  lemma {:induction false} AboveBagStep(t: string, rails: int, m: int)
    requires rails >= 2
    ensures AboveBag(t, rails, m) == AboveBag(t, rails, m - 1) + OnRailBag(t, rails, m - 1)
    decreases |t|
  {
    if t != [] {
      AboveBagStep(t[..|t| - 1], rails, m);
    }
  }

  lemma {:induction false} FenceBag(t: string, rails: int, m: nat)
    requires rails >= 2
    ensures multiset(Fence(t, rails, m)) == AboveBag(t, rails, m)
  {
    if m == 0 {
      FenceBagNone(t, rails);
    } else {
      FenceBag(t, rails, m - 1);
      FenceBagStep(t, rails, m);
    }
  }

  lemma FenceBagNone(t: string, rails: int)
    requires rails >= 2
    ensures multiset(Fence(t, rails, 0)) == AboveBag(t, rails, 0)
  {
    AboveBagNone(t, rails);
    assert Fence(t, rails, 0) == [];
  }

  lemma FenceBagStep(t: string, rails: int, m: nat)
    requires rails >= 2 && m > 0
    requires multiset(Fence(t, rails, m - 1)) == AboveBag(t, rails, m - 1)
    ensures multiset(Fence(t, rails, m)) == AboveBag(t, rails, m)
  {
    OnRailBagIsOnRail(t, rails, m - 1);
    AboveBagStep(t, rails, m);
    FenceStep(t, rails, m);
    Regroup(multiset(Fence(t, rails, m)), multiset(Fence(t, rails, m - 1)), multiset(OnRail(t, rails, m - 1)),
            AboveBag(t, rails, m - 1), OnRailBag(t, rails, m - 1), AboveBag(t, rails, m));
  }

  lemma Regroup<T>(whole: multiset<T>, a: multiset<T>, b: multiset<T>, x: multiset<T>, y: multiset<T>, z: multiset<T>)
    requires whole == a + b && a == x && b == y && z == x + y
    ensures whole == z
  {
  }

  lemma FenceStep(t: string, rails: int, m: nat)
    requires rails >= 2 && m > 0
    ensures multiset(Fence(t, rails, m)) ==
      multiset(Fence(t, rails, m - 1)) + multiset(OnRail(t, rails, m - 1))
  {
  }

  lemma {:induction false} AboveBagNone(t: string, rails: int)
    requires rails >= 2
    ensures AboveBag(t, rails, 0) == multiset{}
    decreases |t|
  {
    if t != [] {
      AboveBagNone(t[..|t| - 1], rails);
    }
  }

  lemma {:induction false} AboveBagAll(t: string, rails: int)
    requires rails >= 2
    ensures AboveBag(t, rails, rails) == multiset(t)
    decreases |t|
  {
    if t != [] {
      var p := t[..|t| - 1];
      AboveBagAll(p, rails);
      assert t == p + [t[|t| - 1]];
    }
  }

  /** Encryption only reorders the characters. */
  lemma EncodePermutes(t: string, rails: int)
    requires rails >= 2
    ensures multiset(Encode(t, rails)) == multiset(t)
  {
    FenceBag(t, rails, rails);
    AboveBagAll(t, rails);
  }

  /** Decryption only reorders the characters too. */
  lemma DecodePermutes(c: string, rails: int)
    requires rails >= 2
    ensures multiset(Decode(c, rails)) == multiset(c)
  {
    EncodeDecode(c, rails);
    EncodePermutes(Decode(c, rails), rails);
  }

  // ---------------------------------------------------------------------
  // The loops of `railfence`.

  /** The encryption branch: push every character onto the rail the walk is
      on, then join the rails top to bottom. */
  method EncryptRails(text: string, rails: int) returns (res: string)
    requires rails >= 2
    ensures res == Encode(text, rails)
  {
    var arr := new string[rails](_ => []);
    var rail, dir := 0, 1;
    for i := 0 to |text|
      invariant Cursor(rail, dir) == Walk(i, rails)
      invariant forall r :: 0 <= r < rails ==> arr[r] == OnRail(text[..i], rails, r)
    {
      assert text[..i + 1][..i] == text[..i];
      forall r | 0 <= r < rails
        ensures OnRail(text[..i + 1], rails, r) == arr[r] + (if rail == r then [text[i]] else [])
      {
      }
      arr[rail] := arr[rail] + [text[i]];
      rail := rail + dir;
      if rail == rails - 1 || rail == 0 {
        dir := -dir;
      }
    }
    assert text[..|text|] == text;
    res := JoinRails(text, rails, arr);
  }

  /** The final join of encryption: each rail's characters in order, the
      rails concatenated from the top one down. */
  method JoinRails(text: string, rails: int, arr: array<string>) returns (res: string)
    requires rails >= 2 && arr.Length == rails
    requires forall r :: 0 <= r < rails ==> arr[r] == OnRail(text, rails, r)
    ensures res == Encode(text, rails)
  {
    res := [];
    for r := 0 to rails
      invariant res == Fence(text, rails, r)
    {
      res := res + arr[r];
    }
  }

  /** The first loop of the decryption branch: `pat[i]` is the rail of
      position `i`. */
  method RecordWalk(n: nat, rails: int) returns (pat: seq<int>)
    requires rails >= 2
    ensures |pat| == n && forall j :: 0 <= j < n ==> pat[j] == Rail(j, rails)
  {
    pat := [];
    var rail, dir := 0, 1;
    for i := 0 to n
      invariant Cursor(rail, dir) == Walk(i, rails)
      invariant |pat| == i && forall j :: 0 <= j < i ==> pat[j] == Rail(j, rails)
    {
      pat := pat + [rail];
      rail := rail + dir;
      if rail == rails - 1 || rail == 0 {
        dir := -dir;
      }
    }
  }

  /** One pass of the double loop of the decryption branch: the positions
      on rail `r`, in text order, get the next numbers of the running
      counter `c`. */
  method NumberRail(pat: seq<int>, rails: int, r: int, idxs: array<nat>, c0: nat) returns (c: nat)
    requires rails >= 2 && idxs.Length == |pat|
    requires forall j :: 0 <= j < |pat| ==> pat[j] == Rail(j, rails)
    requires c0 == Below(|pat|, rails, r)
    modifies idxs
    ensures c == Below(|pat|, rails, r + 1)
    ensures forall j :: 0 <= j < |pat| && Rail(j, rails) != r ==> idxs[j] == old(idxs[j])
    ensures forall j :: 0 <= j < |pat| && Rail(j, rails) == r ==> idxs[j] == Rank(|pat|, rails, j)
  {
    var n := |pat|;
    c := c0;
    for i := 0 to n
      invariant c == Below(n, rails, r) + Count(i, rails, r)
      invariant forall j :: 0 <= j < n && Rail(j, rails) != r ==> idxs[j] == old(idxs[j])
      invariant forall j :: 0 <= j < i && Rail(j, rails) == r ==> idxs[j] == Rank(n, rails, j)
    {
      if pat[i] == r {
        assert Rank(n, rails, i) == c;
        idxs[i] := c;
        c := c + 1;
      }
    }
    BelowStep(n, rails, r);
  }

  /** The double loop of the decryption branch: number the positions rail by
      rail, in text order within a rail, with one running counter. */
  method NumberPositions(pat: seq<int>, rails: int) returns (idxs: array<nat>)
    requires rails >= 2
    requires forall j :: 0 <= j < |pat| ==> pat[j] == Rail(j, rails)
    ensures fresh(idxs) && idxs.Length == |pat|
    ensures forall j :: 0 <= j < |pat| ==> idxs[j] == Rank(|pat|, rails, j)
  {
    var n := |pat|;
    idxs := new nat[n];
    var c := 0;
    BelowNone(n, rails);
    for r := 0 to rails
      invariant c == Below(n, rails, r)
      invariant forall j :: 0 <= j < n && Rail(j, rails) < r ==> idxs[j] == Rank(n, rails, j)
    {
      c := NumberRail(pat, rails, r, idxs, c);
    }
    forall j | 0 <= j < n ensures idxs[j] == Rank(n, rails, j) {
      assert Rail(j, rails) < rails;
    }
  }

  /** The decryption branch: record the walk in `pat`, number the positions
      into `idxs`, and read the ciphertext through `idxs`. */
  method DecryptRails(text: string, rails: int) returns (res: string)
    requires rails >= 2
    ensures res == Decode(text, rails)
  {
    var n := |text|;
    var pat := RecordWalk(n, rails);
    var idxs := NumberPositions(pat, rails);
    var ret := new char[n];
    for i := 0 to n
      modifies ret
      invariant forall j :: 0 <= j < i ==> ret[j] == text[Rank(n, rails, j)]
    {
      ret[i] := text[idxs[i]];
    }
    res := ret[..];
  }

  // ---------------------------------------------------------------------
  // `railfence(mode, text, key)`.

  /** The rail count: the parsed key, or 2 when it does not parse or parses
      to 0. */
  function RailCount(parsed: Option<int>): (rails: int)
    ensures parsed.None? ==> rails == 2
    ensures parsed.Some? && parsed.value != 0 ==> rails == parsed.value
    ensures parsed == Some(0) ==> rails == 2
  {
    OrDefault(parsed, 2)
  }

  /** A key below 2 is refused with a message; a rail count too large for a
      JavaScript array makes `Array.from` / `Array` throw; otherwise the text
      is enciphered or deciphered and keeps its length and its characters. */
  function RailFence(mode: Mode, text: string, parsed: Option<int>): (o: Outcome)
    ensures RailCount(parsed) < 2 ==> o == Returned(KeyTooSmall)
    ensures o.Threw? <==> RailCount(parsed) > MaxArrayLength
    ensures o.Threw? ==> o.message == InvalidArrayLength
    ensures 2 <= RailCount(parsed) <= MaxArrayLength ==>
      o.Returned? && multiset(o.value) == multiset(text)
    ensures 2 <= RailCount(parsed) <= MaxArrayLength ==>
      o == Returned(if mode == Encrypt then Encode(text, RailCount(parsed)) else Decode(text, RailCount(parsed)))
  {
    var rails := RailCount(parsed);
    if rails < 2 then Returned(KeyTooSmall)
    else if rails > MaxArrayLength then Threw(InvalidArrayLength)
    else if mode == Encrypt then
      EncodePermutes(text, rails);
      Returned(Encode(text, rails))
    else
      DecodePermutes(text, rails);
      Returned(Decode(text, rails))
  }

  /** Deciphering the ciphertext with the same key gives the text back. */
  lemma RailFenceRoundTrip(text: string, parsed: Option<int>)
    requires RailFence(Encrypt, text, parsed).Returned?
    requires RailCount(parsed) >= 2
    ensures RailFence(Decrypt, RailFence(Encrypt, text, parsed).value, parsed) == Returned(text)
  {
    DecodeEncode(text, RailCount(parsed));
  }

  /** A rail count of 2^32 or more throws, in either mode. */
  lemma TooManyRailsThrow(mode: Mode, text: string, parsed: Option<int>)
    requires RailCount(parsed) > MaxArrayLength
    ensures RailFence(mode, text, parsed) == Threw(InvalidArrayLength)
  {
  }
}
