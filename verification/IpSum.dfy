/** The checksum of an IP header, section 3.1 of RFC 791. */
module IpSum {
  import opened ByteIndex

  type Byte = bv8

  const FULL := 0xffff

  /** The 16-bit word that begins at byte `i`, high byte first. */
  function WordAt(buff: seq<Byte>, i: nat): (w: nat)
    requires i + 1 < |buff|
    ensures w <= FULL
  {
    256 * Index(buff[i]) + Index(buff[i + 1])
  }

  /** The words of the first `n` bytes, added up. */
  function Total(buff: seq<Byte>, n: nat): (t: nat)
    requires n <= |buff| && n % 2 == 0
    decreases n
  {
    if n == 0 then 0 else Total(buff, n - 2) + WordAt(buff, n - 2)
  }

  /** Adding the carries to the low 16 bits until none is left. */
  function Folded(sum: nat): (r: nat)
    ensures r <= FULL
    decreases sum
  {
    if sum <= FULL then sum
    else
      FoldKeeps(sum);
      Folded(sum % 0x1_0000 + sum / 0x1_0000)
  }

  /** A turn of the folding loop makes the sum smaller and keeps it modulo 65535. */
  lemma FoldKeeps(sum: nat)
    requires sum > FULL
    ensures var next := sum % 0x1_0000 + sum / 0x1_0000;
            0 < next < sum && next % FULL == sum % FULL
  {
    var hi, lo := sum / 0x1_0000, sum % 0x1_0000;
    assert sum == FULL * hi + (hi + lo);
    ModKeeps(hi + lo, hi);
  }

  /** The folding loop keeps the sum modulo 65535, and does not make 0 of another sum. */
  lemma {:induction false} FoldedKeeps(sum: nat)
    ensures Folded(sum) % FULL == sum % FULL
    ensures Folded(sum) == 0 <==> sum == 0
    decreases sum
  {
    if sum > FULL {
      FoldKeeps(sum);
      FoldedKeeps(sum % 0x1_0000 + sum / 0x1_0000);
    }
  }

  lemma ModKeeps(x: nat, k: nat)
    ensures (x + FULL * k) % FULL == x % FULL
  {
  }

  /** The number of bytes that the length field of a header announces: the low four bits count words
      of four. */
  function HeaderLength(buff: seq<Byte>): (n: nat)
    requires |buff| > 0
    ensures n <= 60 && n % 2 == 0
  {
    4 * (Index(buff[0]) % 16)
  }

  /** What the function returns for a header. */
  function Checksum(buff: seq<Byte>): (c: nat)
    requires |buff| > 0 && HeaderLength(buff) <= |buff|
    ensures c <= FULL
  {
    FULL - Folded(Total(buff, HeaderLength(buff)))
  }

  /** The loop over the header; the sum of at most 30 words fits 32 bits. */
  method AddWords(buff: seq<Byte>, n: nat) returns (sum: nat)
    requires n <= |buff| && n % 2 == 0 && n <= 60
    ensures sum == Total(buff, n) < 0x1_0000_0000
  {
    sum := 0;
    var i := 0;
    while i < n
      invariant i <= n && i % 2 == 0 && sum == Total(buff, i) <= FULL * (i / 2)
    {
      sum := sum + WordAt(buff, i);
      i := i + 2;
    }
  }

  /** The loop over the carries. */
  method Fold(start: nat) returns (sum: nat)
    ensures sum == Folded(start)
  {
    sum := start;
    while sum / 0x1_0000 != 0
      invariant Folded(sum) == Folded(start)
      decreases sum
    {
      FoldKeeps(sum);
      sum := sum % 0x1_0000 + sum / 0x1_0000;
    }
  }

  /** ip_sum_calc_linux, and its copies for the other systems. */
  method IpSumCalc(buff: seq<Byte>) returns (r: nat)
    requires |buff| > 0 && HeaderLength(buff) <= |buff|
    ensures r == Checksum(buff)
  {
    var sum := AddWords(buff, HeaderLength(buff));
    sum := Fold(sum);
    // ~sum, cut to 16 bits
    r := FULL - sum;
  }

  // ---- Storing the checksum ----

  /** Bytes `at` and `at + 1` hold a word, high byte first. */
  predicate Stores(buff: seq<Byte>, at: nat, w: nat) {
    at + 1 < |buff| && WordAt(buff, at) == w
  }

  /** Equal lengths, and equal bytes but for the word at `at`. */
  predicate SameBut(a: seq<Byte>, b: seq<Byte>, at: nat) {
    |a| == |b| && forall i | 0 <= i < |a| && i != at && i != at + 1 :: a[i] == b[i]
  }

  lemma {:induction false} TotalChanges(a: seq<Byte>, b: seq<Byte>, at: nat, n: nat)
    requires SameBut(a, b, at) && n <= |a| && n % 2 == 0 && at % 2 == 0 && at + 2 <= n
    ensures n <= |b| && Total(b, n) == Total(a, n) - WordAt(a, at) + WordAt(b, at)
    decreases n
  {
    if n == at + 2 {
      TotalSame(a, b, at);
    } else {
      TotalChanges(a, b, at, n - 2);
    }
  }

  lemma {:induction false} TotalSame(a: seq<Byte>, b: seq<Byte>, n: nat)
    requires n <= |a| && n <= |b| && n % 2 == 0 && forall i | 0 <= i < n :: a[i] == b[i]
    ensures Total(a, n) == Total(b, n)
    decreases n
  {
    if n > 0 {
      TotalSame(a, b, n - 2);
    }
  }

  /** A sum and its complement make 65535, or 0 when both are none. */
  lemma ComplementFolds(t: nat)
    ensures Folded(t + (FULL - Folded(t))) == FULL
  {
    hide Folded;
    FoldedKeeps(t);
    var c := FULL - Folded(t);
    var s := t + c;
    FoldedKeeps(s);
    assert s % FULL == 0 by {
      ModSum(t, Folded(t));
    }
    assert s > 0 by {
      if t == 0 {
        assert c == FULL;
      }
    }
    OnlyFull(Folded(s));
  }

  lemma ModSum(t: nat, f: nat)
    requires f <= FULL && f % FULL == t % FULL
    ensures (t + (FULL - f)) % FULL == 0
  {
  }

  lemma OnlyFull(x: nat)
    requires 0 < x <= FULL && x % FULL == 0
    ensures x == FULL
  {
  }

  /** A header that carries, in a field that held 0 when it was computed, the value computed for it
      makes the function return 0. */
  lemma StoredGivesZero(a: seq<Byte>, b: seq<Byte>, at: nat)
    requires |a| > 0 && HeaderLength(a) <= |a| && at % 2 == 0 && 0 < at && at + 2 <= HeaderLength(a)
    requires SameBut(a, b, at) && Stores(a, at, 0) && Stores(b, at, Checksum(a))
    ensures |b| == |a| && HeaderLength(b) == HeaderLength(a) && Checksum(b) == 0
  {
    SameLength(a, b, at);
    StoredFolds(a, b, at, HeaderLength(a));
  }

  lemma StoredFolds(a: seq<Byte>, b: seq<Byte>, at: nat, n: nat)
    requires n <= |a| && n % 2 == 0 && at % 2 == 0 && at + 2 <= n && SameBut(a, b, at)
    requires Stores(a, at, 0) && Stores(b, at, FULL - Folded(Total(a, n)))
    ensures n <= |b| && Folded(Total(b, n)) == FULL
  {
    TotalChanges(a, b, at, n);
    ComplementFolds(Total(a, n));
  }

  lemma SameLength(a: seq<Byte>, b: seq<Byte>, at: nat)
    requires |a| > 0 && 0 < at && SameBut(a, b, at)
    ensures |a| == |b| && HeaderLength(b) == HeaderLength(a)
  {
    assert a[0] == b[0];
  }

  /** In general a header is accepted exactly when its words add up to a multiple of 65535 but not 0. */
  lemma AcceptedExactly(a: seq<Byte>)
    requires |a| > 0 && HeaderLength(a) <= |a|
    ensures Checksum(a) == 0 <==> Total(a, HeaderLength(a)) % FULL == 0 && Total(a, HeaderLength(a)) > 0
  {
    hide Total, Folded;
    var f := Folded(Total(a, HeaderLength(a)));
    FoldedKeeps(Total(a, HeaderLength(a)));
    if 0 < f && f % FULL == 0 {
      OnlyFull(f);
    }
  }

  /** The first `n` bytes read as one number, highest byte first. */
  function Number(buff: seq<Byte>, n: nat): (x: nat)
    requires n <= |buff|
    decreases n
  {
    if n == 0 then 0 else 256 * Number(buff, n - 1) + Index(buff[n - 1])
  }

  predicate Congruent(a: nat, b: nat) {
    a % FULL == b % FULL
  }

  /** A word behind a number is a word added to it. */
  lemma WordAdded(total: nat, number: nat, w: nat)
    requires Congruent(total, number)
    ensures Congruent(total + w, 0x1_0000 * number + w)
  {
    ModKeeps(number + w, number);
    assert 0x1_0000 * number + w == number + w + FULL * number;
    ModKeeps(total % FULL + w, total / FULL);
    ModKeeps(total % FULL + w, number / FULL);
  }

  lemma NumberNext(buff: seq<Byte>, n: nat)
    requires 2 <= n <= |buff|
    ensures Number(buff, n) == 0x1_0000 * Number(buff, n - 2) + (256 * Index(buff[n - 2]) + Index(buff[n - 1]))
  {
  }

  /** Adding up the words is taking that number modulo 65535, and neither makes 0 of something else. */
  lemma {:induction false} TotalIsNumber(buff: seq<Byte>, n: nat)
    requires n <= |buff| && n % 2 == 0
    ensures Congruent(Total(buff, n), Number(buff, n))
    ensures Total(buff, n) == 0 <==> Number(buff, n) == 0
    decreases n
  {
    hide Congruent, Number, Index;
    if n == 0 {
      NumberOfNone(buff);
    } else {
      TotalIsNumber(buff, n - 2);
      var w := 256 * Index(buff[n - 2]) + Index(buff[n - 1]);
      NumberNext(buff, n);
      WordAdded(Total(buff, n - 2), Number(buff, n - 2), w);
    }
  }

  lemma NumberOfNone(buff: seq<Byte>)
    ensures Number(buff, 0) == 0 && Congruent(0, 0)
  {
  }

  /** So a header is accepted exactly when, read as one number, it is a multiple of 65535 but not 0. */
  lemma AcceptedNumbers(a: seq<Byte>)
    requires |a| > 0 && 4 * (Index(a[0]) % 16) <= |a|
    ensures HeaderLength(a) <= |a|
    ensures var x := Number(a, 4 * (Index(a[0]) % 16)); Checksum(a) == 0 <==> x % 65535 == 0 && x > 0
  {
    AcceptedExactly(a);
    TotalIsNumber(a, HeaderLength(a));
    hide Checksum, Total, Number, Index;
  }
}
