/** Decoding which peers are online from the bits of the rendezvous server's
    answer (client/src/client.rs). */
module OnlineStates {
  import opened Basics

  /** Bit `k` of a byte counted from the most significant one, as the mask
      1 << (7 - k) selects it. */
  predicate HasBit(b: int, k: int) {
    if k == 0 then b / 128 % 2 == 1
    else if k == 1 then b / 64 % 2 == 1
    else if k == 2 then b / 32 % 2 == 1
    else if k == 3 then b / 16 % 2 == 1
    else if k == 4 then b / 8 % 2 == 1
    else if k == 5 then b / 4 % 2 == 1
    else if k == 6 then b / 2 % 2 == 1
    else b % 2 == 1
  }

  predicate IsOn(states: seq<byte>, i: nat)
    requires i / 8 < |states|
  {
    HasBit(states[i / 8], i % 8)
  }

  predicate IsEnough(n: nat, states: seq<byte>) {
    n <= 8 * |states|
  }

  /** The bits of the first `n` peers. */
  function Flags(states: seq<byte>, n: nat): (bits: seq<bool>)
    requires IsEnough(n, states)
    ensures |bits| == n && forall i :: 0 <= i < n ==> bits[i] == IsOn(states, i)
  {
    seq(n, i requires 0 <= i < n => IsOn(states, i))
  }

  /** The first ids as far as their entry in `bits` is `on`, in order. */
  function Where(ids: seq<string>, bits: seq<bool>, on: bool): seq<string>
    requires |bits| <= |ids|
  {
    if bits == [] then []
    else
      var n := |bits| - 1;
      if bits[n] == on then Where(ids, bits[..n], on) + [ids[n]] else Where(ids, bits[..n], on)
  }

  lemma FlagsGrow(states: seq<byte>, n: nat)
    requires IsEnough(n + 1, states)
    ensures Flags(states, n + 1)[..n] == Flags(states, n) && Flags(states, n + 1)[n] == IsOn(states, n)
  {
  }

  /** The loop; with too few bytes the code indexes past the end, here `None`. */
  method Decode(ids: seq<string>, states: seq<byte>) returns (r: Option<(seq<string>, seq<string>)>)
    ensures r.Some? <==> IsEnough(|ids|, states)
    ensures r.Some? ==> var bits := Flags(states, |ids|); r.value == (Where(ids, bits, true), Where(ids, bits, false))
    ensures r.Some? ==> forall i :: 0 <= i < |ids| ==> ids[i] in if IsOn(states, i) then r.value.0 else r.value.1
  {
    var onlines, offlines := [], [];
    for i := 0 to |ids|
      invariant IsEnough(i, states)
      invariant onlines == Where(ids, Flags(states, i), true) && offlines == Where(ids, Flags(states, i), false)
    {
      if i / 8 >= |states| {
        return None;
      }
      FlagsGrow(states, i);
      if IsOn(states, i) {
        onlines := onlines + [ids[i]];
      } else {
        offlines := offlines + [ids[i]];
      }
    }
    EachIsListed(ids, Flags(states, |ids|));
    return Some((onlines, offlines));
  }

  lemma {:induction false} EachIsListed(ids: seq<string>, bits: seq<bool>)
    requires |bits| <= |ids|
    ensures forall i :: 0 <= i < |bits| ==> ids[i] in Where(ids, bits, bits[i])
  {
    if bits != [] {
      var n := |bits| - 1;
      EachIsListed(ids, bits[..n]);
      forall i | 0 <= i < |bits| ensures ids[i] in Where(ids, bits, bits[i]) {
        assert i < n ==> bits[..n][i] == bits[i] && ids[i] in Where(ids, bits[..n], bits[i]);
      }
    }
  }

  /** No id is lost or made up. */
  lemma {:induction false} IdsConserved(ids: seq<string>, bits: seq<bool>)
    requires |bits| <= |ids|
    ensures multiset(Where(ids, bits, true)) + multiset(Where(ids, bits, false)) == multiset(ids[..|bits|])
  {
    if bits != [] {
      var n := |bits| - 1;
      IdsConserved(ids, bits[..n]);
      assert ids[..|bits|] == ids[..n] + [ids[n]];
      OneMore(Where(ids, bits[..n], true), Where(ids, bits[..n], false), ids[..n], ids[n]);
    }
  }

  lemma OneMore(a: seq<string>, b: seq<string>, c: seq<string>, x: string)
    requires multiset(a) + multiset(b) == multiset(c)
    ensures multiset(a + [x]) + multiset(b) == multiset(c + [x]) == multiset(a) + multiset(b + [x])
  {
  }

  // ----- packing, as the answer is laid out

  function Bit(bits: seq<bool>, i: nat): int {
    if i < |bits| && bits[i] then 1 else 0
  }

  function PackByte(bits: seq<bool>): byte {
    Bit(bits, 0) * 128 + Bit(bits, 1) * 64 + Bit(bits, 2) * 32 + Bit(bits, 3) * 16
    + Bit(bits, 4) * 8 + Bit(bits, 5) * 4 + Bit(bits, 6) * 2 + Bit(bits, 7)
  }

  function Pack(bits: seq<bool>): seq<byte> {
    if bits == [] then []
    else if |bits| <= 8 then [PackByte(bits)]
    else [PackByte(bits[..8])] + Pack(bits[8..])
  }

  lemma ByteHolds(bits: seq<bool>, i: nat)
    requires i < 8 && i < |bits|
    ensures HasBit(PackByte(bits), i) <==> bits[i]
  {
    var b0, b1, b2, b3 := Bit(bits, 0), Bit(bits, 1), Bit(bits, 2), Bit(bits, 3);
    var b4, b5, b6, b7 := Bit(bits, 4), Bit(bits, 5), Bit(bits, 6), Bit(bits, 7);
    var n: int := PackByte(bits);
    var h6 := ((((b0 * 2 + b1) * 2 + b2) * 2 + b3) * 2 + b4) * 2 + b5;
    assert n / 2 == h6 * 2 + b6 && n / 4 == h6;
    assert n / 8 == (((b0 * 2 + b1) * 2 + b2) * 2 + b3) * 2 + b4 && n / 16 == ((b0 * 2 + b1) * 2 + b2) * 2 + b3;
    assert n / 32 == (b0 * 2 + b1) * 2 + b2 && n / 64 == b0 * 2 + b1 && n / 128 == b0;
    BitOnTop(h6, b6);
    BitOnTop(h6 * 2 + b6, b7);
    BitOnTop((((b0 * 2 + b1) * 2 + b2) * 2 + b3) * 2 + b4, b5);
    BitOnTop(((b0 * 2 + b1) * 2 + b2) * 2 + b3, b4);
    BitOnTop((b0 * 2 + b1) * 2 + b2, b3);
    BitOnTop(b0 * 2 + b1, b2);
    BitOnTop(b0, b1);
  }

  lemma BitOnTop(h: int, b: int)
    requires 0 <= b < 2
    ensures (h * 2 + b) % 2 == b
  {
  }

  lemma NextByte(b: byte, states: seq<byte>, i: nat)
    requires 8 <= i && i / 8 <= |states|
    ensures (i - 8) / 8 < |states| && IsOn([b] + states, i) == IsOn(states, i - 8)
  {
    assert i / 8 == (i - 8) / 8 + 1 && i % 8 == (i - 8) % 8;
    assert ([b] + states)[i / 8] == states[(i - 8) / 8];
  }

  lemma {:induction false} PackHolds(bits: seq<bool>, i: nat)
    requires i < |bits|
    ensures i / 8 < |Pack(bits)| && (IsOn(Pack(bits), i) <==> bits[i])
  {
    if |bits| <= 8 {
      ByteHolds(bits, i);
    } else if i < 8 {
      ByteHolds(bits[..8], i);
    } else {
      PackHolds(bits[8..], i - 8);
      NextByte(PackByte(bits[..8]), Pack(bits[8..]), i);
    }
  }

  /** Decoding what was packed gives the states back, one for each id. */
  lemma FlagsOfPacked(bits: seq<bool>)
    ensures IsEnough(|bits|, Pack(bits)) && Flags(Pack(bits), |bits|) == bits
  {
    if bits != [] { PackHolds(bits, |bits| - 1); }
    forall i | 0 <= i < |bits| ensures i / 8 < |Pack(bits)| && IsOn(Pack(bits), i) == bits[i] { PackHolds(bits, i); }
  }

  /** Where the ids of a list stand: in order, and exactly at the bits asked for. */
  ghost predicate Selects(positions: seq<nat>, list: seq<string>, ids: seq<string>, bits: seq<bool>, on: bool) {
    && |positions| == |list| && (forall j, k :: 0 <= j < k < |positions| ==> positions[j] < positions[k])
    && (forall j :: 0 <= j < |list| ==> positions[j] < |bits| && positions[j] < |ids| && list[j] == ids[positions[j]])
    && (forall i: nat :: i in positions <==> i < |bits| && bits[i] == on)
  }

  lemma SelectsMore(positions: seq<nat>, list: seq<string>, ids: seq<string>, bits: seq<bool>, on: bool, n: nat)
    requires n == |bits| - 1 && n < |ids| && bits[n] == on && Selects(positions, list, ids, bits[..n], on)
    ensures Selects(positions + [n], list + [ids[n]], ids, bits, on)
  {
    var more := positions + [n];
    forall j | 0 <= j < |positions| ensures positions[j] < n { assert positions[j] in positions; }
    forall i: nat ensures i in more <==> i < |bits| && bits[i] == on {
      assert i in more <==> i in positions || i == n;
      assert i < n ==> bits[..n][i] == bits[i];
    }
  }

  lemma SelectsNoMore(positions: seq<nat>, list: seq<string>, ids: seq<string>, bits: seq<bool>, on: bool, n: nat)
    requires n == |bits| - 1 && bits[n] != on && Selects(positions, list, ids, bits[..n], on)
    ensures Selects(positions, list, ids, bits, on)
  {
    forall i: nat ensures i in positions <==> i < |bits| && bits[i] == on {
      assert i < n ==> bits[..n][i] == bits[i];
    }
  }

  lemma {:induction false} WhereExactly(ids: seq<string>, bits: seq<bool>, on: bool) returns (positions: seq<nat>)
    requires |bits| <= |ids|
    ensures Selects(positions, Where(ids, bits, on), ids, bits, on)
  {
    positions := [];
    if bits != [] {
      hide Selects;
      var n := |bits| - 1;
      positions := WhereExactly(ids, bits[..n], on);
      if bits[n] == on {
        SelectsMore(positions, Where(ids, bits[..n], on), ids, bits, on, n);
        positions := positions + [n];
      } else {
        SelectsNoMore(positions, Where(ids, bits[..n], on), ids, bits, on, n);
      }
    }
  }

  /** What is decoded from packed states: the online ids are those whose state is
      set, in their order, the offline ids the others, in theirs. */
  lemma PackedStatesDecoded(ids: seq<string>, online: seq<bool>) returns (ons: seq<nat>, offs: seq<nat>)
    requires |online| == |ids|
    ensures IsEnough(|ids|, Pack(online))
    ensures var bits := Flags(Pack(online), |ids|);
            Selects(ons, Where(ids, bits, true), ids, online, true) && Selects(offs, Where(ids, bits, false), ids, online, false)
  {
    FlagsOfPacked(online);
    ons := WhereExactly(ids, online, true);
    offs := WhereExactly(ids, online, false);
  }
}
