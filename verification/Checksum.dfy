/**
  The Internet checksum as packet_ipv4.c and checksum.h compute it: a 32-bit sum of 16-bit
  words, two folds and a complement; sections 1 and 2 of RFC 1071 say what it should be.
 */
module Checksum {
  import opened Octets
  import opened SeqFacts

  const TWO32: nat := 0x1_0000_0000

  function Sum(ws: seq<word>): nat {
    if ws == [] then 0 else ws[0] + Sum(ws[1..])
  }

  /** The two folds and the cast to 16 bits. */
  function Fold(sum: nat): word {
    var once := sum / 0x1_0000 + sum % 0x1_0000;
    (once + once / 0x1_0000) % 0x1_0000
  }

  function Not(x: word): word {
    0xFFFF - x
  }

  /** What both C functions compute over a list of words. */
  function Cksum(ws: seq<word>): word {
    Not(Fold(Sum(ws)))
  }

  // ---------------------------------------------------------------- ones'-complement arithmetic

  /** Addition with end-around carry. */
  function OnesAdd(a: word, b: word): word {
    if a + b > 0xFFFF then a + b - 0xFFFF else a + b
  }

  function OnesSum(ws: seq<word>): word {
    if ws == [] then 0 else OnesAdd(ws[0], OnesSum(ws[1..]))
  }

  /** The residue of `n` modulo 65535, with 65535 standing for the multiples other than 0. */
  function Residue(n: nat): word {
    if n == 0 then 0 else (n - 1) % 0xFFFF + 1
  }

  lemma ResidueStep(a: word, n: nat)
    ensures OnesAdd(a, Residue(n)) == Residue(a + n)
  {
    if n > 0 {
      var q, r := (n - 1) / 0xFFFF, (n - 1) % 0xFFFF;
      assert n == 0xFFFF * q + r + 1;
      if a + r + 1 > 0xFFFF {
        ResidueIs(a + n, q + 1, a + r + 1 - 0xFFFF);
      } else {
        ResidueIs(a + n, q, a + r + 1);
      }
    }
  }

  lemma ResidueIs(n: nat, q: nat, r: nat)
    requires n == 0xFFFF * q + r && 1 <= r <= 0xFFFF
    ensures Residue(n) == r
  {
    assert (n - 1) / 0xFFFF == q;
  }

  /** Two folds are always enough. */
  lemma FoldIsResidue(n: nat)
    requires n < TWO32
    ensures Fold(n) == Residue(n)
  {
    var h, l := n / 0x1_0000, n % 0x1_0000;
    assert n == 0xFFFF * h + (h + l);
    if n > 0 {
      if h + l <= 0xFFFF {
        ResidueIs(n, h, h + l);
      } else {
        ResidueIs(n, h + 1, h + l - 0xFFFF);
      }
    }
  }

  lemma {:induction false} OnesSumIsResidue(ws: seq<word>)
    ensures OnesSum(ws) == Residue(Sum(ws))
  {
    if ws != [] {
      OnesSumIsResidue(ws[1..]);
      ResidueStep(ws[0], Sum(ws[1..]));
    }
  }

  lemma {:induction false} SumBound(ws: seq<word>)
    ensures Sum(ws) <= 0xFFFF * |ws|
  {
    if ws != [] {
      SumBound(ws[1..]);
    }
  }

  lemma CksumIsResidue(ws: seq<word>)
    requires |ws| <= 0x1_0000
    ensures Cksum(ws) == Not(Residue(Sum(ws))) && Sum(ws) < TWO32
  {
    SumBound(ws);
    FoldIsResidue(Sum(ws));
  }

  /** The C arithmetic is the complement of the ones'-complement sum of the words. */
  lemma CksumIsOnesComplement(ws: seq<word>)
    requires |ws| <= 0x1_0000
    ensures Cksum(ws) == Not(OnesSum(ws)) && Sum(ws) < TWO32
  {
    CksumIsResidue(ws);
    OnesSumIsResidue(ws);
  }

  lemma {:induction false} SumUpdate(ws: seq<word>, k: nat, v: word)
    requires k < |ws|
    ensures Sum(ws[k := v]) == Sum(ws) - ws[k] + v
  {
    if k == 0 {
      assert ws[k := v][1..] == ws[1..];
    } else {
      assert ws[k := v][1..] == ws[1..][k - 1 := v];
      SumUpdate(ws[1..], k - 1, v);
    }
  }

  lemma ComplementFills(n: nat, v: word)
    ensures var c := Not(Residue(n));
            Residue(n + v) == 0xFFFF <==> v == c || (c == 0 && v == 0xFFFF)
  {
    var q := if n == 0 then 0 else (n - 1) / 0xFFFF;
    var r := Residue(n);
    assert n == 0xFFFF * q + r;
    if n + v > 0 {
      if r + v <= 0xFFFF {
        ResidueIs(n + v, q, r + v);
      } else {
        ResidueIs(n + v, q + 1, r + v - 0xFFFF);
      }
    }
  }

  /**
    Over words whose checksum word is zero, a stored word makes the recomputed checksum zero
    exactly when it is the computed checksum (or its other form, should that be zero).
   */
  lemma StoredChecksumVerifies(ws: seq<word>, k: nat, v: word)
    requires |ws| <= 0x1_0000 && k < |ws| && ws[k] == 0
    ensures Cksum(ws[k := v]) == 0 <==> v == Cksum(ws) || (Cksum(ws) == 0 && v == 0xFFFF)
  {
    CksumIsResidue(ws);
    CksumIsResidue(ws[k := v]);
    SumUpdate(ws, k, v);
    ComplementFills(Sum(ws), v);
  }

  lemma SumCut(ws: seq<word>, k: nat)
    requires k < |ws|
    ensures multiset(ws) == multiset(Cut(ws, k)) + multiset{ws[k]}
    ensures Sum(ws) == Sum(Cut(ws, k)) + ws[k]
  {
    SplitAt(ws, k);
    SumConcat(ws[..k], ws[k..]);
    SumConcat(ws[..k], ws[k + 1..]);
    assert ws[k..][1..] == ws[k + 1..];
  }

  lemma SplitAt(ws: seq<word>, k: nat)
    requires k < |ws|
    ensures ws == ws[..k] + ws[k..]
    ensures multiset(ws) == multiset(Cut(ws, k)) + multiset{ws[k]}
  {
    assert ws == ws[..k] + ([ws[k]] + ws[k + 1..]);
  }

  lemma {:induction false} SumPermuted(ws: seq<word>, vs: seq<word>)
    requires multiset(ws) == multiset(vs)
    ensures Sum(ws) == Sum(vs)
    decreases |ws|
  {
    if ws == [] {
      assert |multiset(vs)| == |vs| == 0;
    } else {
      assert ws[0] in multiset(vs);
      var k :| 0 <= k < |vs| && vs[k] == ws[0];
      SumCut(ws, 0);
      SumCut(vs, k);
      Cancel(multiset(Cut(ws, 0)), multiset(Cut(vs, k)), ws[0]);
      SumPermuted(Cut(ws, 0), Cut(vs, k));
    }
  }

  lemma {:induction false} SumConcat(ws: seq<word>, vs: seq<word>)
    ensures Sum(ws + vs) == Sum(ws) + Sum(vs)
  {
    if ws == [] {
      assert ws + vs == vs;
    } else {
      assert (ws + vs)[1..] == ws[1..] + vs;
      SumConcat(ws[1..], vs);
    }
  }

  lemma PermutedChecksum(ws: seq<word>, vs: seq<word>)
    requires multiset(ws) == multiset(vs)
    ensures Cksum(ws) == Cksum(vs)
  {
    SumPermuted(ws, vs);
  }

  function SwapAll(ws: seq<word>): (r: seq<word>)
    ensures |r| == |ws|
  {
    if ws == [] then [] else [Swap(ws[0])] + SwapAll(ws[1..])
  }

  lemma SwapAdd(a: word, b: word)
    ensures OnesAdd(Swap(a), Swap(b)) == Swap(OnesAdd(a, b))
  {
    var r, r' := OnesAdd(a, b), OnesAdd(Swap(a), Swap(b));
    var k, k' := if a + b > 0xFFFF then 1 else 0, if Swap(a) + Swap(b) > 0xFFFF then 1 else 0;
    SwapIs(a);
    SwapIs(b);
    SwapIs(r);
    var m := 256 * k + r / 256 - a / 256 - b / 256 - k';
    calc {
      r' - Swap(r);
      Swap(a) + Swap(b) - 0xFFFF * k' - Swap(r);
      256 * (a + b - r) - 0xFFFF * (a / 256 + b / 256 + k' - r / 256);
      256 * (0xFFFF * k) - 0xFFFF * (a / 256 + b / 256 + k' - r / 256);
      0xFFFF * m;
    }
    SameResidue(r', Swap(r), m);
  }

  lemma SameResidue(x: word, y: word, m: int)
    requires x - y == 0xFFFF * m && (x == 0 <==> y == 0)
    ensures x == y
  {
  }

  lemma SwapIs(x: word)
    ensures Swap(x) == 256 * x - 0xFFFF * (x / 256)
    ensures Swap(x) == 0 <==> x == 0
  {
  }

  lemma SwapNot(x: word)
    ensures Swap(Not(x)) == Not(Swap(x))
  {
    assert Not(x) / 256 == 255 - x / 256 && Not(x) % 256 == 255 - x % 256;
  }

  lemma {:induction false} OnesSumSwapped(ws: seq<word>)
    ensures OnesSum(SwapAll(ws)) == Swap(OnesSum(ws))
  {
    if ws != [] {
      OnesSumSwapped(ws[1..]);
      SwapAdd(ws[0], OnesSum(ws[1..]));
    }
  }

  /** Swapping the octets of every word swaps those of the checksum. */
  lemma SwappedChecksum(ws: seq<word>)
    requires |ws| <= 0x1_0000
    ensures Cksum(SwapAll(ws)) == Swap(Cksum(ws))
  {
    CksumIsOnesComplement(ws);
    CksumIsOnesComplement(SwapAll(ws));
    OnesSumSwapped(ws);
    SwapNot(OnesSum(ws));
  }

  lemma SumNext(w: seq<word>, i: nat)
    requires i < |w| && i <= 0x1_0000
    ensures Sum(w[..i + 1]) == Sum(w[..i]) + w[i]
    ensures Sum(w[..i + 1]) <= 0xFFFF * (i + 1)
    ensures i < 0x1_0000 ==> (Sum(w[..i]) + w[i]) % TWO32 == Sum(w[..i + 1])
  {
    SumConcat(w[..i], [w[i]]);
    assert w[..i + 1] == w[..i] + [w[i]] && [w[i]][1..] == [];
    SumBound(w[..i + 1]);
  }

  /** The second fold never carries out of 32 bits. */
  lemma FoldInPlace(sum: nat)
    requires sum < TWO32
    ensures var once := sum / 0x1_0000 + sum % 0x1_0000;
            once < TWO32 && (once + once / 0x1_0000) % TWO32 % 0x1_0000 == Fold(sum)
  {
    var once := sum / 0x1_0000 + sum % 0x1_0000;
    assert once + once / 0x1_0000 < TWO32;
  }

  /** The folds and the complement, in 32-bit arithmetic. */
  method Finish(sum: nat) returns (val: word)
    requires sum < TWO32
    ensures val == Not(Residue(sum)) && val == Not(Fold(sum))
  {
    FoldInPlace(sum);
    FoldIsResidue(sum);
    var acc := sum / 0x1_0000 + sum % 0x1_0000;
    acc := (acc + acc / 0x1_0000) % TWO32;
    val := 0xFFFF - acc % 0x1_0000;
  }

  /** ipv4_cksum: `len` counts words. */
  method Ipv4Cksum(w: seq<word>, len: nat) returns (ret: int)
    requires len <= |w|
    ensures len < 10 || len > 30 || len % 2 != 0 ==> ret == -1
    ensures 10 <= len <= 30 && len % 2 == 0 ==> ret == Cksum(w[..len]) && ret == Not(OnesSum(w[..len]))
  {
    if len < 10 || len > 30 || len % 2 != 0 {
      return -1;
    }
    var cksum: nat, i := 0, 0;
    while i < len
      invariant 0 <= i <= len && cksum == Sum(w[..i])
    {
      SumNext(w, i);
      cksum := (cksum + w[i]) % TWO32;
      i := i + 1;
    }
    CksumIsOnesComplement(w[..len]);
    ret := Finish(cksum);
  }

  // ---------------------------------------------------------------- csum_icmp, over octets

  /** The octets as the words a little-endian machine loads; an odd last octet counts as a low one. */
  function WordsOf(b: seq<octet>): (r: seq<word>)
    ensures |r| == (|b| + 1) / 2
  {
    if b == [] then []
    else if |b| == 1 then [b[0] as nat]
    else [b[0] as nat + 256 * b[1] as nat] + WordsOf(b[2..])
  }

  /** Every word is two octets of the buffer, the first one low; an odd buffer counts as padded with a zero. */
  lemma {:induction false} WordsAt(b: seq<octet>, i: nat)
    requires i < |b| / 2
    ensures i < |WordsOf(b)| && WordsOf(b)[i] == b[2 * i] as nat + 256 * b[2 * i + 1] as nat
  {
    if i > 0 {
      WordsAt(b[2..], i - 1);
      assert b[2..][2 * (i - 1)] == b[2 * i] && b[2..][2 * (i - 1) + 1] == b[2 * i + 1];
    }
  }

  lemma {:induction false} OddIsPadded(b: seq<octet>)
    requires |b| % 2 == 1
    ensures WordsOf(b) == WordsOf(b + [0])
  {
    if |b| == 1 {
      assert (b + [0])[2..] == [];
    } else {
      assert (b + [0])[2..] == b[2..] + [0];
      OddIsPadded(b[2..]);
    }
  }

  lemma {:induction false} WordsConcat(a: seq<octet>, b: seq<octet>)
    requires |a| % 2 == 0
    ensures WordsOf(a + b) == WordsOf(a) + WordsOf(b)
  {
    if a == [] {
      assert a + b == b;
    } else {
      assert (a + b)[2..] == a[2..] + b;
      WordsConcat(a[2..], b);
    }
  }

  lemma NextWord(b: seq<octet>, pos: nat)
    requires pos % 2 == 0 && pos + 2 <= |b|
    ensures WordsOf(b[..pos + 2]) == WordsOf(b[..pos]) + [b[pos] as nat + 256 * b[pos + 1] as nat]
  {
    WordsConcat(b[..pos], b[pos..pos + 2]);
    assert b[..pos + 2] == b[..pos] + b[pos..pos + 2] && b[pos..pos + 2][2..] == [];
  }

  lemma LastOctet(b: seq<octet>, pos: nat)
    requires pos % 2 == 0 && pos < |b|
    ensures WordsOf(b[..pos + 1]) == WordsOf(b[..pos]) + [b[pos] as nat]
  {
    WordsConcat(b[..pos], b[pos..pos + 1]);
    assert b[..pos + 1] == b[..pos] + b[pos..pos + 1];
  }

  lemma AppendSum(ws: seq<word>, w: word)
    requires |ws| < 0x1_0000
    ensures Sum(ws + [w]) == Sum(ws) + w && (Sum(ws) + w) % TWO32 == Sum(ws) + w
  {
    SumConcat(ws, [w]);
    SumOne(w);
    SumBound(ws);
    FitsWord(Sum(ws), |ws|, w);
  }

  /** One more word does not overflow 32 bits. */
  lemma FitsWord(sum: nat, n: nat, w: word)
    requires n < 0x1_0000 && sum <= 0xFFFF * n
    ensures (sum + w) % TWO32 == sum + w
  {
    assert sum + w < TWO32;
    NoWrap(sum + w);
  }

  lemma SumOne(w: word)
    ensures Sum([w]) == w
  {
    assert [w][1..] == [];
  }

  lemma NoWrap(n: nat)
    requires n < TWO32
    ensures n % TWO32 == n
  {
  }

  lemma NextSum(b: seq<octet>, pos: nat)
    requires pos % 2 == 0 && pos + 2 <= |b| && pos < 0x1_0000
    ensures (Sum(WordsOf(b[..pos])) + b[pos] as nat + 256 * b[pos + 1] as nat) % TWO32 == Sum(WordsOf(b[..pos + 2]))
  {
    NextWord(b, pos);
    AppendSum(WordsOf(b[..pos]), b[pos] as nat + 256 * b[pos + 1] as nat);
  }

  lemma LastSum(b: seq<octet>, pos: nat)
    requires pos % 2 == 0 && pos < |b| && pos < 0x1_0000
    ensures (Sum(WordsOf(b[..pos])) + b[pos] as nat) % TWO32 == Sum(WordsOf(b[..pos + 1]))
  {
    LastOctet(b, pos);
    AppendSum(WordsOf(b[..pos]), b[pos] as nat);
  }

  /** A 16-bit register read as a signed number. */
  function Signed(x: nat): int {
    if x >= 0x8000 then x - 0x1_0000 else x
  }

  /** It is the one number of 16 signed bits with that bit pattern. */
  lemma SignedIs(x: nat)
    requires x < 0x1_0000
    ensures -0x8000 <= Signed(x) < 0x8000 && Signed(x) % 0x1_0000 == x
  {
  }

  /** subw $2 on a 16-bit register. */
  function Minus2(x: nat): nat {
    (x + 0x1_0000 - 2) % 0x1_0000
  }

  /** The lengths for which the loop runs over the whole buffer. */
  predicate Covered(len: nat) {
    2 <= len <= 0x8001
  }

  /** How many octets the loop sums: its signed 16-bit comparison ends it after one word otherwise. */
  function Consumed(len: nat): nat {
    if Covered(len) then len else 2
  }

  /** One turn of the loop: the counter stays the number of octets left exactly on covered lengths. */
  lemma CountDown(len: nat, pos: nat, cx: nat)
    requires len < 0x1_0000
    requires (pos == 0 && cx == len) || (Covered(len) && 2 <= pos && cx == len - pos && cx > 1)
    ensures var c := Minus2(cx);
            if Covered(len) then
              c == len - pos - 2 && (Signed(c) > 1 <==> c > 1) && (Signed(c) == 1 <==> c == 1)
            else Signed(c) < 1
  {
  }

  /** csum_icmp; `buf` is the memory at `addr`, of which `len` octets are the packet. */
  method CsumIcmp(buf: seq<octet>, len: nat) returns (val: word)
    requires len < 0x1_0000 && len <= |buf| && 2 <= |buf|
    ensures val == Cksum(WordsOf(buf[..Consumed(len)]))
  {
    var eax := SumWords(buf, len);
    SumBound(WordsOf(buf[..Consumed(len)]));
    val := Finish(eax);
  }

  /** The loop of csum_icmp and its odd last octet. */
  method SumWords(buf: seq<octet>, len: nat) returns (eax: nat)
    requires len < 0x1_0000 && len <= |buf| && 2 <= |buf|
    ensures eax == Sum(WordsOf(buf[..Consumed(len)]))
  {
    var pos: nat, cx: nat, more := 0, len, true;
    eax := 0;
    while more
      invariant pos % 2 == 0 && pos <= |buf| && eax == Sum(WordsOf(buf[..pos]))
      invariant
        || (pos == 0 && cx == len && more)
        || (!Covered(len) && pos == 2 && Signed(cx) < 1 && !more)
        || (Covered(len) && 2 <= pos <= len && cx == len - pos && (more <==> cx > 1) && (Signed(cx) == 1 <==> cx == 1))
      decreases |buf| - pos, more
    {
      var w: word := buf[pos] as nat + 256 * buf[pos + 1] as nat;
      NextSum(buf, pos);
      eax := (eax + w) % TWO32;
      CountDown(len, pos, cx);
      cx := Minus2(cx);
      pos := pos + 2;
      more := Signed(cx) > 1;
    }
    if Signed(cx) == 1 {
      LastSum(buf, pos);
      eax := (eax + buf[pos] as nat) % TWO32;
    }
  }

  lemma {:induction false} ZeroSum(b: seq<octet>)
    requires forall i :: 0 <= i < |b| ==> b[i] == 0
    ensures Sum(WordsOf(b)) == 0
  {
    if |b| > 1 {
      ZeroSum(b[2..]);
      assert WordsOf(b)[1..] == WordsOf(b[2..]);
    }
  }

  lemma OneWord(b: seq<octet>)
    requires |b| == 2
    ensures Sum(WordsOf(b)) == b[0] as nat + 256 * b[1] as nat
  {
    assert b[2..] == [];
    assert WordsOf(b) == [b[0] as nat + 256 * b[1] as nat];
  }

  /** Only one octet, the one after the first word, is set. */
  lemma ThirdOctetCounts(buf: seq<octet>)
    requires |buf| >= 4 && forall i :: 0 <= i < |buf| ==> buf[i] == if i == 2 then 1 else 0
    ensures Sum(WordsOf(buf[..2])) == 0 && Sum(WordsOf(buf)) == 1
  {
    ZeroSum(buf[..2]);
    OneWord(buf[2..4]);
    ZeroSum(buf[4..]);
    assert buf == buf[..2] + buf[2..] && buf[2..] == buf[2..4] + buf[4..];
    WordsConcat(buf[..2], buf[2..]);
    WordsConcat(buf[2..4], buf[4..]);
    SumConcat(WordsOf(buf[..2]), WordsOf(buf[2..]));
    SumConcat(WordsOf(buf[2..4]), WordsOf(buf[4..]));
  }

  /** A packet of `len` octets over which csum_icmp goes wrong. */
  lemma WrongBeyond(len: nat) returns (buf: seq<octet>)
    requires len < 0x1_0000 && !Covered(len)
    ensures len <= |buf| && 2 <= |buf|
    ensures Cksum(WordsOf(buf[..Consumed(len)])) != Cksum(WordsOf(buf[..len]))
  {
    if len < 2 {
      buf := if len == 0 then [1, 0] else [0, 1];
      assert buf[..2] == buf;
      OneWord(buf);
      ZeroSum(buf[..len]);
    } else {
      buf := seq(len, i => if i == 2 then 1 else 0);
      assert buf[..len] == buf;
      ThirdOctetCounts(buf);
    }
  }

  /** csum_icmp is the checksum of its `len` octets, whatever they are, exactly for lengths 2 to 32769. */
  lemma IcmpIsRightExactly(len: nat)
    requires len < 0x1_0000
    ensures Covered(len) <==>
            forall buf: seq<octet> :: len <= |buf| && 2 <= |buf| ==>
                                        Cksum(WordsOf(buf[..Consumed(len)])) == Cksum(WordsOf(buf[..len]))
  {
    if !Covered(len) {
      var buf := WrongBeyond(len);
    }
  }

  lemma {:induction false} WordsUpdate(b: seq<octet>, k: nat, lo: octet, hi: octet)
    requires k % 2 == 0 && k + 1 < |b|
    ensures WordsOf(b[k := lo][k + 1 := hi]) == WordsOf(b)[k / 2 := lo as nat + 256 * hi as nat]
  {
    var c := b[k := lo][k + 1 := hi];
    if k == 0 {
      assert c[2..] == b[2..];
    } else {
      assert c[2..] == b[2..][k - 2 := lo][k - 1 := hi];
      WordsUpdate(b[2..], k - 2, lo, hi);
    }
  }

  /** Storing the checksum into the zeroed field of a packet of a covered length makes the packet verify. */
  lemma PacketVerifies(b: seq<octet>, k: nat)
    requires Covered(|b|) && k % 2 == 0 && k + 1 < |b| && b[k] == 0 && b[k + 1] == 0
    ensures var c := Cksum(WordsOf(b));
            Cksum(WordsOf(b[k := (c % 256) as octet][k + 1 := (c / 256) as octet])) == 0
  {
    var c := Cksum(WordsOf(b));
    WordsUpdate(b, k, (c % 256) as octet, (c / 256) as octet);
    WordsUpdate(b, k, 0, 0);
    assert b[k := 0][k + 1 := 0] == b;
    StoredChecksumVerifies(WordsOf(b), k / 2, c);
  }
}
