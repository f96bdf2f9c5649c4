/**
 Prefix codes and the Kraft sum of their lengths, scaled by a power of two to stay in the naturals:
 the sum over all code words of 2^(d - length).
 */
module PrefixCodes {
  import opened Bits

  /** No code word is a prefix of another one. */
  ghost predicate PrefixFree(codes: seq<seq<bool>>) {
    forall i, j | 0 <= i < |codes| && 0 <= j < |codes| && i != j :: !(codes[i] <= codes[j])
  }

  function Lengths(codes: seq<seq<bool>>): (lens: seq<nat>)
    ensures |lens| == |codes|
  {
    seq(|codes|, i requires 0 <= i < |codes| => |codes[i]|)
  }

  /** `w` counted `l` times: the bits spent on a symbol of frequency `w` and code length `l`. */
  function Times(w: nat, l: nat): (p: nat)
  {
    if l == 0 then 0 else Times(w, l - 1) + w
  }

  lemma {:induction false} TimesIsProduct(w: nat, l: nat)
    ensures Times(w, l) == w * l
  {
    if l == 0 {
    } else {
      TimesIsProduct(w, l - 1);
      Distribute(w, l - 1, 1);
    }
  }

  /** The length of a message that uses symbol `i` `freq[i]` times, coded with `lens[i]` bits each. */
  function TotalBits(freq: seq<nat>, lens: seq<nat>): (bits: nat)
    requires |freq| == |lens|
  {
    if freq == [] then 0
    else
      var n := |freq| - 1;
      TotalBits(freq[..n], lens[..n]) + Times(freq[n], lens[n])
  }

  ghost predicate Within(lens: seq<nat>, d: nat) {
    forall i | 0 <= i < |lens| :: lens[i] <= d
  }

  /** The share of the code space that a word of `l` bits takes up, out of 2^d. */
  function Share(l: nat, d: nat): (k: nat) {
    if l <= d then Pow2(d - l) else 0
  }

  function KraftSum(lens: seq<nat>, d: nat): (k: nat)
  {
    if lens == [] then 0
    else
      var n := |lens| - 1;
      KraftSum(lens[..n], d) + Share(lens[n], d)
  }

  /** The lengths satisfy the Kraft inequality. */
  ghost predicate Kraft(lens: seq<nat>, d: nat) {
    Within(lens, d) && KraftSum(lens, d) <= Pow2(d)
  }

  lemma KraftSnoc(lens: seq<nat>, x: nat, d: nat)
    ensures KraftSum(lens + [x], d) == KraftSum(lens, d) + Share(x, d)
    ensures Within(lens, d) && x <= d ==> Within(lens + [x], d)
  {
    assert (lens + [x])[..|lens|] == lens;
  }

  lemma {:induction false} KraftScale(lens: seq<nat>, d: nat, e: nat)
    requires Within(lens, d)
    ensures Within(lens, d + e) && KraftSum(lens, d + e) == Pow2(e) * KraftSum(lens, d)
  {
    if lens == [] {
    } else {
      var n := |lens| - 1;
      KraftScale(lens[..n], d, e);
      Pow2Add(e, d - lens[n]);
      Distribute(Pow2(e), KraftSum(lens[..n], d), Pow2(d - lens[n]));
    }
  }

  lemma Distribute(a: nat, b: nat, c: nat)
    ensures a * (b + c) == a * b + a * c
  {
  }

  lemma MulOrder(a: nat, b: nat, c: nat)
    requires c > 0
    ensures a <= b <==> c * a <= c * b
  {
    if a < b { MulStep(a, b, c); assert c * a == a * c && c * b == b * c; }
    if b < a { MulStep(b, a, c); assert c * a == a * c && c * b == b * c; }
  }

  /** The inequality does not depend on the scale. */
  lemma KraftRebase(lens: seq<nat>, d: nat, d': nat)
    requires Kraft(lens, d) && Within(lens, d')
    ensures Kraft(lens, d')
  {
    if d <= d' {
      KraftScale(lens, d, d' - d);
      Pow2Add(d' - d, d);
      MulOrder(KraftSum(lens, d), Pow2(d), Pow2(d' - d));
    } else {
      KraftScale(lens, d', d - d');
      Pow2Add(d - d', d');
      MulOrder(KraftSum(lens, d'), Pow2(d'), Pow2(d - d'));
    }
  }

  // ----- Kraft's inequality for prefix codes

  /** The rests of the code words that start with `bit`. */
  function Tails(codes: seq<seq<bool>>, bit: bool): (r: seq<seq<bool>>)
  {
    if codes == [] then []
    else
      var front, last := codes[..|codes| - 1], codes[|codes| - 1];
      if last != [] && last[0] == bit then Tails(front, bit) + [last[1..]] else Tails(front, bit)
  }

  lemma {:induction false} TailsFrom(codes: seq<seq<bool>>, bit: bool, i: nat) returns (j: nat)
    requires i < |Tails(codes, bit)|
    ensures j < |codes| && codes[j] == [bit] + Tails(codes, bit)[i]
  {
    var front, last := codes[..|codes| - 1], codes[|codes| - 1];
    if i < |Tails(front, bit)| {
      j := TailsFrom(front, bit, i);
    } else {
      j := |codes| - 1;
    }
  }

  lemma TailsApart(codes: seq<seq<bool>>, bit: bool, i: nat)
    requires PrefixFree(codes) && codes != []
    requires codes[|codes| - 1] != [] && codes[|codes| - 1][0] == bit
    requires i < |Tails(codes[..|codes| - 1], bit)|
    ensures var last, tail := codes[|codes| - 1][1..], Tails(codes[..|codes| - 1], bit)[i];
            !(tail <= last) && !(last <= tail)
  {
    var n := |codes| - 1;
    var tail, last := Tails(codes[..n], bit)[i], codes[n];
    var j := TailsFrom(codes[..n], bit, i);
    assert !(codes[j] <= codes[n]) && !(codes[n] <= codes[j]);
    assert last == [bit] + last[1..];
    PrefixCons(bit, tail, last[1..]);
  }

  lemma {:induction false} TailsPrefixFree(codes: seq<seq<bool>>, bit: bool)
    requires PrefixFree(codes)
    ensures PrefixFree(Tails(codes, bit))
  {
    if codes == [] {
    } else {
      var n := |codes| - 1;
      TailsPrefixFree(codes[..n], bit);
      if codes[n] != [] && codes[n][0] == bit {
        forall i | 0 <= i < |Tails(codes[..n], bit)|
          ensures !(Tails(codes[..n], bit)[i] <= codes[n][1..]) && !(codes[n][1..] <= Tails(codes[..n], bit)[i])
        {
          TailsApart(codes, bit, i);
        }
      }
    }
  }

  lemma PrefixCons(bit: bool, a: seq<bool>, b: seq<bool>)
    ensures a <= b <==> [bit] + a <= [bit] + b
    ensures b <= a <==> [bit] + b <= [bit] + a
  {
    assert ([bit] + a)[1..] == a && ([bit] + b)[1..] == b;
    if [bit] + a <= [bit] + b {
      assert ([bit] + b)[..|a| + 1] == [bit] + a;
      assert b[..|a|] == ([bit] + b)[..|a| + 1][1..] == a;
    }
    if [bit] + b <= [bit] + a {
      assert ([bit] + a)[..|b| + 1] == [bit] + b;
      assert a[..|b|] == ([bit] + a)[..|b| + 1][1..] == b;
    }
  }

  lemma TailsKraftStep(codes: seq<seq<bool>>, bit: bool, d: nat)
    requires codes != [] && codes[|codes| - 1] != [] && |codes[|codes| - 1]| <= d
    requires Within(Lengths(Tails(codes[..|codes| - 1], bit)), d - 1)
    ensures Within(Lengths(Tails(codes, bit)), d - 1)
    ensures KraftSum(Lengths(Tails(codes, bit)), d - 1)
         == KraftSum(Lengths(Tails(codes[..|codes| - 1], bit)), d - 1)
          + if codes[|codes| - 1][0] == bit then Share(|codes[|codes| - 1]|, d) else 0
  {
    var front, last := codes[..|codes| - 1], codes[|codes| - 1];
    if last[0] == bit {
      assert Lengths(Tails(codes, bit)) == Lengths(Tails(front, bit)) + [|last| - 1];
      KraftSnoc(Lengths(Tails(front, bit)), |last| - 1, d - 1);
    }
  }

  lemma {:induction false} TailsKraft(codes: seq<seq<bool>>, d: nat)
    requires d > 0 && Within(Lengths(codes), d)
    requires forall i | 0 <= i < |codes| :: codes[i] != []
    ensures Within(Lengths(Tails(codes, false)), d - 1) && Within(Lengths(Tails(codes, true)), d - 1)
    ensures KraftSum(Lengths(codes), d)
         == KraftSum(Lengths(Tails(codes, false)), d - 1) + KraftSum(Lengths(Tails(codes, true)), d - 1)
  {
    if codes == [] {
    } else {
      var n := |codes| - 1;
      assert Lengths(codes)[n] == |codes[n]| && Lengths(codes)[..n] == Lengths(codes[..n]);
      TailsKraft(codes[..n], d);
      TailsKraftStep(codes, false, d);
      TailsKraftStep(codes, true, d);
    }
  }

  /** The empty word is a prefix of every word, so it stands alone. */
  lemma EmptyWordAlone(codes: seq<seq<bool>>, i: nat)
    requires i < |codes| && codes[i] == [] && |codes| > 1
    ensures !PrefixFree(codes)
  {
    var j := if i == 0 then 1 else 0;
    assert codes[i] <= codes[j];
  }

  lemma EmptyWordKraft(codes: seq<seq<bool>>, i: nat, d: nat)
    requires PrefixFree(codes) && i < |codes| && codes[i] == []
    ensures Kraft(Lengths(codes), d)
  {
    if |codes| > 1 {
      EmptyWordAlone(codes, i);
    }
    assert Lengths(codes) == [] + [0];
    KraftSnoc([], 0, d);
  }

  lemma NonEmptyWords(codes: seq<seq<bool>>, d: nat)
    requires codes != [] && Within(Lengths(codes), d) && forall i | 0 <= i < |codes| :: codes[i] != []
    ensures d > 0
  {
    assert Lengths(codes)[0] == |codes[0]|;
  }

  /** Kraft's inequality: the lengths of a prefix code satisfy it. */
  lemma {:induction false} PrefixFreeKraft(codes: seq<seq<bool>>, d: nat)
    requires PrefixFree(codes) && Within(Lengths(codes), d)
    ensures Kraft(Lengths(codes), d)
    decreases d
  {
    if codes == [] {
    } else if i :| 0 <= i < |codes| && codes[i] == [] {
      EmptyWordKraft(codes, i, d);
    } else {
      var zeros, ones := Tails(codes, false), Tails(codes, true);
      NonEmptyWords(codes, d);
      TailsKraft(codes, d);
      TailsPrefixFree(codes, false);
      TailsPrefixFree(codes, true);
      PrefixFreeKraft(zeros, d - 1);
      PrefixFreeKraft(ones, d - 1);
    }
  }

  function MaxLength(lens: seq<nat>): (d: nat)
    ensures Within(lens, d)
  {
    if lens == [] then 0
    else
      var n := |lens| - 1;
      var d := MaxLength(lens[..n]);
      if d >= lens[n] then d else lens[n]
  }
}
