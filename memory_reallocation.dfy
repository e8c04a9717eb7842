/** Memory reallocation (2017 day 6): the fullest memory bank (lowest index
    on ties) is emptied and its blocks are dealt one by one to the following
    banks, wrapping round; the cycles repeat until a configuration is seen
    again. */
module MemoryReallocation {
  import opened Wrappers
  import opened Text
  import opened Circular

  // ---------------------------------------------------------------------------
  // max_bank

  /** `(banks.index(max(banks)), max(banks))`; `max` of an empty list raises
      ValueError. */
  function MaxBank(banks: seq<int>): (r: Result<(nat, int)>)
    ensures r.Err? <==> |banks| == 0
    ensures r.Err? ==> r.error == ValueError
    ensures r.Ok? ==> r.value.0 < |banks| && banks[r.value.0] == r.value.1
    decreases |banks|
  {
    if |banks| == 0 then Err(ValueError)
    else if |banks| == 1 then Ok((0, banks[0]))
    else
      var (i, v) := MaxBank(banks[1..]).value;
      if banks[0] >= v then Ok((0, banks[0])) else Ok((i + 1, v))
  }

  /** The value is the maximum and the index the lowest one holding it, so
      ties go to the lowest-numbered bank. */
  lemma {:induction false} MaxBankFirstMax(banks: seq<int>)
    requires |banks| > 0
    ensures var (b, v) := MaxBank(banks).value;
      (forall j :: 0 <= j < |banks| ==> banks[j] <= v) &&
      (forall j :: 0 <= j < b ==> banks[j] < v)
    decreases |banks|
  {
    if |banks| > 1 {
      MaxBankFirstMax(banks[1..]);
      assert forall j :: 1 <= j < |banks| ==> banks[j] == banks[1..][j - 1];
    }
  }

  // ---------------------------------------------------------------------------
  // redistribution_banks

  /** Deal `v` blocks one at a time, each to the bank after the previous one. */
  function Deal(s: seq<int>, pos: int, v: int): (r: seq<int>)
    requires |s| > 0
    ensures |r| == |s|
    decreases v
  {
    if v <= 0 then s
    else
      var p := (pos + 1) % |s|;
      Deal(s[p := s[p] + 1], p, v - 1)
  }

  /** One reallocation cycle: empty the fullest bank, then deal its blocks
      from the bank after it. */
  function Redistributed(s: seq<int>): (r: seq<int>)
    requires |s| > 0
    ensures |r| == |s|
  {
    var (b, v) := MaxBank(s).value;
    Deal(s[b := 0], b, v)
  }

  method RedistributionBanks(banks: array<int>) returns (ok: bool)
    modifies banks
    ensures ok <==> banks.Length > 0
    ensures !ok ==> banks[..] == old(banks[..])
    ensures ok ==> banks[..] == Redistributed(old(banks[..]))
  {
    if banks.Length == 0 {
      // `max` of an empty list raises ValueError.
      return false;
    }
    var (bNum, bValue) := MaxBank(banks[..]).value;
    var banksCount := banks.Length;
    banks[bNum] := 0;
    while bValue > 0
      invariant 0 <= bNum < banksCount
      invariant Deal(banks[..], bNum, bValue) == Redistributed(old(banks[..]))
      decreases bValue
    {
      bNum := (bNum + 1) % banksCount;
      banks[bNum] := banks[bNum] + 1;
      bValue := bValue - 1;
    }
    return true;
  }

  function Sum(s: seq<int>): int
    decreases |s|
  {
    if |s| == 0 then 0 else Sum(s[..|s| - 1]) + s[|s| - 1]
  }

  lemma {:induction false} SumUpdate(s: seq<int>, p: nat, x: int)
    requires p < |s|
    ensures Sum(s[p := x]) == Sum(s) - s[p] + x
    decreases |s|
  {
    var t := s[p := x];
    if p < |s| - 1 {
      assert t[..|t| - 1] == s[..|s| - 1][p := x];
      SumUpdate(s[..|s| - 1], p, x);
    } else {
      assert t[..|t| - 1] == s[..|s| - 1];
    }
  }

  /** Dealing `v` blocks adds `v` to the total. */
  lemma {:induction false} DealSum(s: seq<int>, pos: int, v: int)
    requires |s| > 0
    ensures Sum(Deal(s, pos, v)) == Sum(s) + (if v > 0 then v else 0)
    decreases v
  {
    if v > 0 {
      var p := (pos + 1) % |s|;
      SumUpdate(s, p, s[p] + 1);
      DealSum(s[p := s[p] + 1], p, v - 1);
    }
  }

  /** A cycle keeps the number of banks and, when some bank is not negative
      (so the maximum is dealt out in full), the total number of blocks. */
  lemma RedistributedSum(s: seq<int>)
    requires exists j :: 0 <= j < |s| && s[j] >= 0
    ensures |Redistributed(s)| == |s|
    ensures Sum(Redistributed(s)) == Sum(s)
  {
    var (b, v) := MaxBank(s).value;
    MaxBankFirstMax(s);
    SumUpdate(s, b, 0);
    DealSum(s[b := 0], b, v);
  }

  /** How many of blocks 1..v dealt after `pos` land on bank `i`: every bank
      gets `v / n`, and the first `v % n` banks after `pos` one more. */
  function Share(i: int, pos: int, v: nat, n: int): nat
    requires n > 0
  {
    v / n + (if 1 <= Offset(i, pos, n) <= v % n then 1 else 0)
  }

  /** The bookkeeping of `ShareStep` with the quotients, remainders and
      offsets named: `v - 1 == q * n + r`, `d` the offset from `pos`, `d'`
      the offset from the bank after it. */
  lemma ShareArith(n: int, q: nat, r: nat, vq: nat, vr: nat, d: nat, d': nat, hit: bool)
    requires 0 <= r < n && 0 <= vr < n && d < n && d' < n
    requires r < n - 1 ==> vq == q && vr == r + 1
    requires r == n - 1 ==> vq == q + 1 && vr == 0
    requires d' == if d == 0 then n - 1 else d - 1
    requires hit <==> d' == 0
    ensures vq + (if 1 <= d <= vr then 1 else 0) ==
      (if hit then 1 else 0) + q + (if 1 <= d' <= r then 1 else 0)
  {
  }

  /** The only cell at distance 0 from `p` is `p` itself. */
  lemma OffsetZero(i: int, p: int, n: int)
    requires n > 0 && 0 <= i < n && 0 <= p < n
    ensures i == p <==> Offset(i, p, n) == 0
  {
    var d := Offset(i, p, n);
    ShiftOfOffset(i, p, n);
    if d == 0 {
      ModUnique(p, n, 0, p);
    }
  }

  /** One more block either bumps the remainder or completes a round. */
  lemma QuotientStep(v: int, n: int)
    requires n > 0
    ensures (v - 1) % n < n - 1 ==> v / n == (v - 1) / n && v % n == (v - 1) % n + 1
    ensures (v - 1) % n == n - 1 ==> v / n == (v - 1) / n + 1 && v % n == 0
  {
    var q := (v - 1) / n;
    var r := (v - 1) % n;
    if r < n - 1 {
      ModUnique(v, n, q, r + 1);
    } else {
      ModUnique(v, n, q + 1, 0);
    }
  }

  /** Dealing the first of `v` blocks to the bank after `pos`, then the other
      `v - 1` from there, shares them out as dealing all `v` from `pos`. */
  lemma ShareStep(i: int, pos: int, v: nat, n: int)
    requires n > 0 && v >= 1 && 0 <= i < n
    ensures Share(i, pos, v, n) == (if i == (pos + 1) % n then 1 else 0) + Share(i, (pos + 1) % n, v - 1, n)
  {
    var p := (pos + 1) % n;
    var d := Offset(i, pos, n);
    var d' := Offset(i, p, n);
    var q, r := (v - 1) / n, (v - 1) % n;
    var vq, vr := v / n, v % n;
    QuotientStep(v, n);
    OffsetStep(i, pos, n);
    OffsetZero(i, p, n);
    assert Share(i, pos, v, n) == vq + (if 1 <= d <= vr then 1 else 0);
    assert Share(i, p, v - 1, n) == q + (if 1 <= d' <= r then 1 else 0);
    ShareArith(n, q, r, vq, vr, d, d', i == p);
  }

  /** Dealing is round robin. */
  lemma {:induction false} DealShares(s: seq<int>, pos: int, v: nat)
    requires |s| > 0
    ensures forall i :: 0 <= i < |s| ==> Deal(s, pos, v)[i] == s[i] + Share(i, pos, v, |s|)
    decreases v
  {
    var n := |s|;
    if v == 0 {
      assert forall i :: 0 <= i < n ==> Share(i, pos, 0, n) == 0;
    } else {
      var p := (pos + 1) % n;
      var s' := s[p := s[p] + 1];
      assert Deal(s, pos, v) == Deal(s', p, v - 1);
      DealShares(s', p, v - 1);
      forall i | 0 <= i < n
        ensures Deal(s, pos, v)[i] == s[i] + Share(i, pos, v, n)
      {
        ShareStep(i, pos, v, n);
      }
    }
  }

  /** The whole cycle bank by bank: the chosen bank restarts from 0, and every
      bank gains its round-robin share of the chosen bank's blocks. */
  lemma RedistributedBanks(s: seq<int>)
    requires |s| > 0 && MaxBank(s).value.1 >= 0
    ensures var (b, v) := MaxBank(s).value;
      forall i :: 0 <= i < |s| ==>
        Redistributed(s)[i] == (if i == b then 0 else s[i]) + Share(i, b, v, |s|)
  {
    var (b, v) := MaxBank(s).value;
    DealShares(s[b := 0], b, v);
  }

  // ---------------------------------------------------------------------------
  // banks_signature

  /** `''.join(str(bank) for bank in banks)`. */
  function Signature(banks: seq<int>): string
    decreases |banks|
  {
    if |banks| == 0 then "" else Signature(banks[..|banks| - 1]) + DecimalString(banks[|banks| - 1])
  }

  /** Without a separator, different banks can share a signature. */
  lemma SignatureCollision()
    ensures [1, 11] != [11, 1]
    ensures Signature([1, 11]) == Signature([11, 1]) == "111"
  {
    assert [1, 11][..1] == [1];
    assert [11, 1][..1] == [11];
    assert [1, 11][..1][..0] == [];
    assert [11, 1][..1][..0] == [];
    assert NatString(11) == "11";
  }

  // ---------------------------------------------------------------------------
  // reallocation

  /** The banks after `k` cycles. */
  function States(s0: seq<int>, k: nat): (r: seq<int>)
    requires |s0| > 0
    ensures |r| == |s0|
  {
    if k == 0 then s0 else Redistributed(States(s0, k - 1))
  }

  /** `t` lists the banks of consecutive cycles, starting from `s0`. */
  ghost predicate IsTrace(s0: seq<int>, t: seq<seq<int>>) {
    |t| > 0 && t[0] == s0 &&
    (forall j :: 0 <= j < |t| ==> |t[j]| == |s0|) &&
    (forall j :: 0 <= j < |t| - 1 ==> |t[j]| > 0 ==> t[j + 1] == Redistributed(t[j]))
  }

  /** A trace is the sequence of states, so there is only one of each length. */
  lemma {:induction false} TraceStates(s0: seq<int>, t: seq<seq<int>>, k: nat)
    requires |s0| > 0 && IsTrace(s0, t) && k < |t|
    ensures t[k] == States(s0, k)
  {
    if k > 0 {
      TraceStates(s0, t, k - 1);
    }
  }

  lemma TraceExtend(s0: seq<int>, t: seq<seq<int>>, x: seq<int>)
    requires |s0| > 0 && IsTrace(s0, t) && x == Redistributed(t[|t| - 1])
    ensures IsTrace(s0, t + [x])
  {
    var t' := t + [x];
    assert forall j :: 0 <= j < |t| ==> t'[j] == t[j];
  }

  /** The states of `t` have pairwise different keys.  The loop's key is
      `Signature`; the reasoning below holds for any key. */
  ghost predicate Distinct(t: seq<seq<int>>, key: seq<int> -> string) {
    forall i, j :: 0 <= i < j < |t| ==> key(t[i]) != key(t[j])
  }

  /** The last state of `t` is the first whose key was seen before, at
      position `first`. */
  ghost predicate RepeatsAt(t: seq<seq<int>>, first: int, key: seq<int> -> string) {
    0 <= first < |t| - 1 && key(t[|t| - 1]) == key(t[first]) &&
    Distinct(t[..|t| - 1], key)
  }

  /** `res == (cycles, loop length)` for the trace `t` whose last state repeats. */
  ghost predicate Answer(t: seq<seq<int>>, res: (int, int), key: seq<int> -> string) {
    1 <= res.1 <= res.0 && |t| == res.0 + 1 && RepeatsAt(t, res.0 - res.1, key)
  }

  /** Two traces from the same banks agree wherever both are defined. */
  lemma TracesAgree(s0: seq<int>, t: seq<seq<int>>, u: seq<seq<int>>)
    requires |s0| > 0 && IsTrace(s0, t) && IsTrace(s0, u)
    ensures forall k :: 0 <= k < |t| && k < |u| ==> t[k] == u[k]
  {
    forall k | 0 <= k < |t| && k < |u| ensures t[k] == u[k] {
      TraceStates(s0, t, k);
      TraceStates(s0, u, k);
    }
  }

  /** In a sequence of distinct states a key determines the position. */
  lemma DistinctPositions(p: seq<seq<int>>, key: seq<int> -> string)
    requires Distinct(p, key)
    ensures forall i, j :: 0 <= i < |p| && 0 <= j < |p| && key(p[i]) == key(p[j]) ==> i == j
  {
  }

  /** No trace without repeats outlasts a trace that has repeated. */
  lemma RepeatBound(s0: seq<int>, t: seq<seq<int>>, f: int, u: seq<seq<int>>, key: seq<int> -> string)
    requires |s0| > 0 && IsTrace(s0, t) && IsTrace(s0, u)
    requires RepeatsAt(t, f, key) && Distinct(u[..|u| - 1], key)
    ensures |u| <= |t|
  {
    var p := u[..|u| - 1];
    TracesAgree(s0, t, u);
    DistinctPositions(p, key);
    assert forall k :: 0 <= k < |p| ==> p[k] == u[k];
  }

  /** The first repeat is unique: the cycle count and the loop length do not
      depend on which trace found them. */
  lemma RepeatUnique(s0: seq<int>, t: seq<seq<int>>, f: int, t': seq<seq<int>>, f': int, key: seq<int> -> string)
    requires |s0| > 0 && IsTrace(s0, t) && IsTrace(s0, t')
    requires RepeatsAt(t, f, key) && RepeatsAt(t', f', key)
    ensures t == t' && f == f'
  {
    RepeatBound(s0, t, f, t', key);
    RepeatBound(s0, t', f', t, key);
    TracesAgree(s0, t, t');
    var p := t[..|t| - 1];
    DistinctPositions(p, key);
    assert p[f] == t[f] && p[f'] == t[f'];
  }

  predicate NoRepeats(h: seq<string>) {
    forall i, j :: 0 <= i < j < |h| ==> h[i] != h[j]
  }

  /** `h` holds the keys of the first states of `t`. */
  ghost predicate Signatures(h: seq<string>, t: seq<seq<int>>, key: seq<int> -> string) {
    |h| <= |t| && forall j :: 0 <= j < |h| ==> h[j] == key(t[j])
  }

  lemma SignaturesDistinct(h: seq<string>, t: seq<seq<int>>, key: seq<int> -> string)
    requires |h| == |t| && Signatures(h, t, key) && NoRepeats(h)
    ensures Distinct(t, key)
  {
  }

  /** `reallocation_map` records each signature of the history `h` under its
      position, and nothing else. */
  ghost predicate Table(m: map<string, int>, h: seq<string>) {
    (forall j :: 0 <= j < |h| ==> h[j] in m && m[h[j]] == j) &&
    (forall k :: k in m ==> exists j :: 0 <= j < |h| && k == h[j])
  }

  /** Recording an unseen signature extends the table; a table's history
      never repeats. */
  lemma TableExtend(m: map<string, int>, h: seq<string>, x: string)
    requires Table(m, h) && x !in m
    ensures Table(m[x := |h|], h + [x])
    ensures NoRepeats(h + [x])
  {
    var h' := h + [x];
    var m' := m[x := |h|];
    forall k | k in m' ensures exists j :: 0 <= j < |h'| && k == h'[j] {
      if k != x {
        var j :| 0 <= j < |h| && k == h[j];
        assert h'[j] == h[j];
      } else {
        assert h'[|h|] == x;
      }
    }
    forall j | 0 <= j < |h'| ensures h'[j] in m' && m'[h'[j]] == j {
      if j < |h| {
        assert h'[j] == h[j];
      }
    }
    forall i, j | 0 <= i < j < |h'| ensures h'[i] != h'[j] {
      if j < |h| {
        assert m[h[i]] == i && m[h[j]] == j;
        assert h'[i] == h[i] && h'[j] == h[j];
      } else {
        assert h'[i] == h[i] && h[i] in m;
      }
    }
  }

  /** A table's history has no repeats. */
  lemma TableRepeats(m: map<string, int>, h: seq<string>)
    requires Table(m, h)
    ensures NoRepeats(h)
  {
    forall i, j | 0 <= i < j < |h| ensures h[i] != h[j] {
      assert m[h[i]] == i && m[h[j]] == j;
    }
  }

  /** A signature found in the table was seen at the recorded cycle. */
  lemma TableHit(m: map<string, int>, h: seq<string>, x: string)
    requires Table(m, h) && x in m
    ensures 0 <= m[x] < |h| && h[m[x]] == x
  {
    var j :| 0 <= j < |h| && x == h[j];
  }

  /** Recording a signature and the next state keeps `h` the signatures of `t`. */
  lemma SignaturesExtend(h: seq<string>, t: seq<seq<int>>, x: seq<int>, key: seq<int> -> string)
    requires |h| + 1 == |t| && Signatures(h, t, key)
    ensures Signatures(h + [key(t[|h|])], t + [x], key)
  {
    var h', t' := h + [key(t[|h|])], t + [x];
    forall j | 0 <= j < |h'| ensures h'[j] == key(t'[j]) {
      assert t'[j] == t[j];
    }
  }

  /** A signature history without repeats keeps the states it describes apart. */
  lemma TakeDistinct(h: seq<string>, t: seq<seq<int>>, key: seq<int> -> string)
    requires Signatures(h, t, key) && NoRepeats(h)
    ensures Distinct(t[..|h|], key)
  {
    var p := t[..|h|];
    assert forall j :: 0 <= j < |h| ==> p[j] == t[j];
    SignaturesDistinct(h, p, key);
  }

  /** A loop that stops on a key already in the table has found the
      first repeat. */
  lemma Found(m: map<string, int>, h: seq<string>, t: seq<seq<int>>, x: string, key: seq<int> -> string, res: (int, int))
    requires Table(m, h) && x in m
    requires |t| == |h| + 1 && Signatures(h, t, key) && x == key(t[|h|])
    requires res.0 == |h| && x in m && res.1 == |h| - m[x]
    ensures Answer(t, res, key)
  {
    var first := m[x];
    TableHit(m, h, x);
    TableRepeats(m, h);
    TakeDistinct(h, t, key);
    assert |t| - 1 == |h|;
    assert RepeatsAt(t, first, key);
    assert res.0 - res.1 == first;
  }

  /** `reallocation(banks)`: the number of cycles until a signature repeats,
      and the length of the loop.  An empty list raises ValueError in the
      first redistribution; `fuel` bounds the number of cycles.  The ghost
      `trace` is the sequence of states the loop went through. */
  method Reallocation(banks: array<int>, fuel: nat) returns (r: Result<(int, int)>, ghost trace: seq<seq<int>>)
    modifies banks
    ensures r.Err? ==> r.error == ValueError || r.error == OutOfFuel
    ensures r.Err? && r.error == ValueError <==> banks.Length == 0
    ensures r.Err? && r.error == OutOfFuel ==>
      IsTrace(old(banks[..]), trace) && |trace| == fuel + 1 && Distinct(trace, Signature)
    ensures r.Ok? ==> banks.Length > 0 && IsTrace(old(banks[..]), trace)
    ensures r.Ok? ==> r.value.0 <= fuel && Answer(trace, r.value, Signature)
    ensures r.Ok? ==> banks[..] == trace[r.value.0]
  {
    trace := [];
    if banks.Length == 0 {
      return Err(ValueError), trace;
    }
    ghost var s0 := banks[..];
    ghost var sigs: seq<string> := [];
    trace := [s0];
    var reallocationMap: map<string, int> := map[];
    var cycle := 0;
    var signature := Signature(banks[..]);
    while signature !in reallocationMap
      invariant 0 <= cycle <= fuel
      invariant IsTrace(s0, trace) && |trace| == cycle + 1
      invariant banks[..] == trace[cycle]
      invariant signature == Signature(trace[cycle])
      invariant |sigs| == cycle && Signatures(sigs, trace, Signature)
      invariant Table(reallocationMap, sigs)
      decreases fuel - cycle
    {
      TableExtend(reallocationMap, sigs, signature);
      SignaturesExtend(sigs, trace, banks[..], Signature);
      if cycle == fuel {
        SignaturesDistinct(sigs + [signature], trace, Signature);
        return Err(OutOfFuel), trace;
      }
      reallocationMap := reallocationMap[signature := cycle];
      var _ := RedistributionBanks(banks);
      TraceExtend(s0, trace, banks[..]);
      SignaturesExtend(sigs, trace, banks[..], Signature);
      sigs := sigs + [signature];
      trace := trace + [banks[..]];
      cycle := cycle + 1;
      signature := Signature(banks[..]);
    }
    var res := (cycle, cycle - reallocationMap[signature]);
    Found(reallocationMap, sigs, trace, signature, Signature, res);
    return Ok(res), trace;
  }
}
