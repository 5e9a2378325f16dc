/** The fingerprint by which a cached ring is recognised: what it computes, what it tells apart and what
    it does not. */
module Fingerprints {
  import opened Words
  import opened Backends

  /** One byte of a URL enters the fingerprint; a string holds one character per byte. */
  function MixChar(acc: Uint64, c: char): Uint64 {
    (acc * 31 + c as int) % 0x1_0000_0000_0000_0000
  }

  function Mix(acc: Uint64, s: string): Uint64 {
    if s == "" then acc else MixChar(Mix(acc, s[..|s| - 1]), s[|s| - 1])
  }

  function Fingerprint(nodes: seq<Backend>): Uint64 {
    if nodes == [] then 0 else Mix(Fingerprint(nodes[..|nodes| - 1]), nodes[|nodes| - 1].url)
  }

  // ----- what it computes -----

  /** All URLs, one after the other. */
  function Joined(nodes: seq<Backend>): string {
    if nodes == [] then "" else Joined(nodes[..|nodes| - 1]) + nodes[|nodes| - 1].url
  }

  lemma {:induction false} JoinedAppend(x: seq<Backend>, y: seq<Backend>)
    ensures Joined(x + y) == Joined(x) + Joined(y)
  {
    if y == [] {
      assert x + y == x;
    } else {
      var front, url := y[..|y| - 1], y[|y| - 1].url;
      assert (x + y)[..|x + y| - 1] == x + front;
      JoinedAppend(x, front);
      hide Joined;
      assert Joined(x) + Joined(front) + url == Joined(x) + (Joined(front) + url);
    }
  }

  lemma {:induction false} MixAppend(acc: Uint64, s: string, t: string)
    ensures Mix(acc, s + t) == Mix(Mix(acc, s), t)
  {
    if t == "" {
      assert s + t == s;
    } else {
      assert (s + t)[..|s + t| - 1] == s + t[..|t| - 1];
      MixAppend(acc, s, t[..|t| - 1]);
    }
  }

  lemma {:induction false} FingerprintIsMix(nodes: seq<Backend>)
    ensures Fingerprint(nodes) == Mix(0, Joined(nodes))
  {
    hide Mix;
    if nodes == [] {
      NothingMixed(0);
    } else {
      FingerprintIsMix(nodes[..|nodes| - 1]);
      MixAppend(0, Joined(nodes[..|nodes| - 1]), nodes[|nodes| - 1].url);
    }
  }

  lemma NothingMixed(acc: Uint64)
    ensures Mix(acc, "") == acc
  {
  }

  function PowerOf31(n: nat): nat {
    if n == 0 then 1 else 31 * PowerOf31(n - 1)
  }

  /** The first `n` bytes of `s`, each times 31 to the number of bytes after it in `s`. */
  function Weighted(s: string, n: nat): nat
    requires n <= |s|
  {
    if n == 0 then 0 else Weighted(s, n - 1) + s[n - 1] as int * PowerOf31(|s| - n)
  }

  lemma Spread(q: nat, r: nat, m: nat)
    ensures (q * m + r) * 31 == r * 31 + 31 * q * m
  {
  }

  lemma MixedRemainder(x: nat, c: nat, m: nat)
    requires 0 < m
    ensures (x % m * 31 + c) % m == (x * 31 + c) % m
  {
    var q, r := x / m, x % m;
    Spread(q, r, m);
    AddMultiple(r * 31 + c, 31 * q, m);
    assert x == q * m + r;
  }

  lemma {:induction false} WeightedShift(s: string, c: char, n: nat)
    requires n <= |s|
    ensures Weighted(s + [c], n) == 31 * Weighted(s, n)
  {
    if n > 0 {
      WeightedShift(s, c, n - 1);
      var p := PowerOf31(|s| - n);
      assert PowerOf31(|s + [c]| - n) == 31 * p;
      assert s[n - 1] as int * (31 * p) == 31 * (s[n - 1] as int * p);
    }
  }

  lemma {:induction false} MixIsWeighted(s: string)
    ensures Mix(0, s) == Weighted(s, |s|) % 0x1_0000_0000_0000_0000
  {
    if s != "" {
      var front, c := s[..|s| - 1], s[|s| - 1];
      MixIsWeighted(front);
      assert front + [c] == s;
      WeightedShift(front, c, |front|);
      assert Weighted(s, |s|) == 31 * Weighted(front, |front|) + c as int;
      hide Mix, Weighted;
      MixedRemainder(Weighted(front, |front|), c as int, 0x1_0000_0000_0000_0000);
    }
  }

  /** The polynomial in 31 over all bytes of all URLs, modulo 2^64. */
  lemma FingerprintIsPolynomial(nodes: seq<Backend>)
    ensures Fingerprint(nodes) == Weighted(Joined(nodes), |Joined(nodes)|) % 0x1_0000_0000_0000_0000
  {
    hide Fingerprint, Mix, Weighted, Joined;
    FingerprintIsMix(nodes);
    MixIsWeighted(Joined(nodes));
  }

  // ----- what it tells apart -----

  /** 31 times the first is 1 more than 2^64 times the second. */
  const INVERSE: int := 17256631552825064415
  const INVERSE_QUOTIENT: int := 29

  /** 31 is invertible modulo 2^64. */
  lemma ThirtyOneIsInvertible(x: Uint64, y: Uint64, d: int)
    requires 31 * (x - y) == d * 0x1_0000_0000_0000_0000
    ensures x == y
  {
    var z := INVERSE * d - INVERSE_QUOTIENT * (x - y);
    assert x - y == z * 0x1_0000_0000_0000_0000;
  }

  lemma MixCharIsInjective(x: Uint64, y: Uint64, c: char)
    requires MixChar(x, c) == MixChar(y, c)
    ensures x == y
  {
    var m := 0x1_0000_0000_0000_0000;
    var a, b := x * 31 + c as int, y * 31 + c as int;
    assert a == a / m * m + a % m && b == b / m * m + b % m;
    ThirtyOneIsInvertible(x, y, a / m - b / m);
  }

  lemma {:induction false} MixIsInjective(x: Uint64, y: Uint64, s: string)
    requires Mix(x, s) == Mix(y, s)
    ensures x == y
  {
    hide MixChar;
    if s != "" {
      var front := s[..|s| - 1];
      MixCharIsInjective(Mix(x, front), Mix(y, front), s[|s| - 1]);
      MixIsInjective(x, y, front);
    }
  }

  lemma CharsDiffer(x: Uint64, c: char, d: char)
    requires c != d
    ensures MixChar(x, c) != MixChar(x, d)
  {
    var m := 0x1_0000_0000_0000_0000;
    var a, b := x * 31 + c as int, x * 31 + d as int;
    assert a == a / m * m + a % m && b == b / m * m + b % m;
  }

  /** Equally long and different in exactly one byte. */
  ghost predicate DifferInOneByte(s: string, t: string) {
    |s| == |t| && exists p :: 0 <= p < |s| && s[p] != t[p] && s[..p] == t[..p] && s[p + 1..] == t[p + 1..]
  }

  lemma OneByteMatters(acc: Uint64, s: string, t: string)
    requires DifferInOneByte(s, t)
    ensures Mix(acc, s) != Mix(acc, t)
  {
    hide MixChar, Mix;
    var p :| 0 <= p < |s| && s[p] != t[p] && s[..p] == t[..p] && s[p + 1..] == t[p + 1..];
    var x := Mix(acc, s[..p]);
    assert s == s[..p] + [s[p]] + s[p + 1..] && t == s[..p] + [t[p]] + s[p + 1..];
    MixAround(acc, s[..p], s[p], s[p + 1..]);
    MixAround(acc, s[..p], t[p], s[p + 1..]);
    CharsDiffer(x, s[p], t[p]);
    if Mix(acc, s) == Mix(acc, t) {
      MixIsInjective(MixChar(x, s[p]), MixChar(x, t[p]), s[p + 1..]);
    }
  }

  lemma MixAround(acc: Uint64, front: string, c: char, rest: string)
    ensures Mix(acc, front + [c] + rest) == Mix(MixChar(Mix(acc, front), c), rest)
  {
    hide MixChar;
    assert (front + [c])[..|front|] == front;
    assert Mix(acc, front + [c]) == MixChar(Mix(acc, front), c);
    hide Mix;
    MixAppend(acc, front + [c], rest);
  }

  /** Lists whose joined URLs are equally long and differ in one byte always have two fingerprints. */
  lemma OneByteChanges(x: seq<Backend>, y: seq<Backend>)
    requires DifferInOneByte(Joined(x), Joined(y))
    ensures Fingerprint(x) != Fingerprint(y)
  {
    hide Fingerprint, Mix, Joined;
    FingerprintIsMix(x);
    FingerprintIsMix(y);
    OneByteMatters(0, Joined(x), Joined(y));
  }

  /** Losing the first backends of a list goes unnoticed if and only if these alone have the
      fingerprint of the empty list. */
  lemma LosingTheFirst(x: seq<Backend>, y: seq<Backend>)
    ensures Fingerprint(x + y) == Fingerprint(y) <==> Fingerprint(x) == 0
  {
    hide Fingerprint, Mix, Joined;
    FingerprintIsMix(x);
    FingerprintIsMix(y);
    FingerprintIsMix(x + y);
    JoinedAppend(x, y);
    MixAppend(0, Joined(x), Joined(y));
    if Fingerprint(x + y) == Fingerprint(y) {
      MixIsInjective(Fingerprint(x), 0, Joined(y));
    }
  }

  /** One to twelve ASCII bytes. */
  ghost predicate Short(s: string) {
    0 < |s| <= 12 && forall i :: 0 <= i < |s| ==> 0 < s[i] as int < 128
  }

  lemma {:induction false} PowersGrow(m: nat, n: nat)
    requires m <= n
    ensures PowerOf31(m) <= PowerOf31(n)
    decreases n
  {
    if m < n {
      PowersGrow(m, n - 1);
    }
  }

  lemma TwelfthPower()
    ensures PowerOf31(12) == 787_662_783_788_549_761
  {
    assert PowerOf31(4) == 923_521;
    assert PowerOf31(8) == 923_521 * 923_521;
  }

  lemma MixCharSmall(x: Uint64, c: char)
    requires x * 31 + c as int < 0x1_0000_0000_0000_0000
    ensures MixChar(x, c) == x * 31 + c as int
  {
  }

  /** Twelve bytes do not wrap. */
  lemma {:induction false} ShortIsNotZero(s: string)
    requires Short(s)
    ensures 0 < Mix(0, s) && 30 * Mix(0, s) <= 127 * (PowerOf31(|s|) - 1)
  {
    hide MixChar;
    var front, c := s[..|s| - 1], s[|s| - 1];
    assert PowerOf31(|s|) == 31 * PowerOf31(|s| - 1);
    if front != "" {
      ShortIsNotZero(front);
    }
    hide PowerOf31;
    PowersGrow(|s|, 12);
    TwelfthPower();
    MixCharSmall(Mix(0, front), c);
  }

  /** A backend with such a URL in front of others is never lost unnoticed. */
  lemma ShortFirstIsNoticed(a: Backend, others: seq<Backend>)
    requires Short(a.url)
    ensures Fingerprint([a] + others) != Fingerprint(others)
  {
    hide Mix, Short;
    assert [a][..0] == [];
    assert Fingerprint([a]) == Mix(0, a.url);
    ShortIsNotZero(a.url);
    LosingTheFirst([a], others);
  }

  // ----- what it does not tell apart -----

  lemma TwoRemainders(x: nat, m: nat)
    requires 0 < m
    ensures ((x * 31 + 65) % m * 31 + 97) % m == ((x * 31 + 66) % m * 31 + 66) % m
  {
    MixedRemainder(x * 31 + 65, 97, m);
    MixedRemainder(x * 31 + 66, 66, m);
    assert (x * 31 + 65) * 31 + 97 == (x * 31 + 66) * 31 + 66;
  }

  lemma MixPair(acc: Uint64, c: char, d: char)
    ensures Mix(acc, [c, d]) == MixChar(MixChar(acc, c), d)
  {
    assert Mix(acc, [c]) == MixChar(acc, c) by {
      assert [c][..0] == "";
    }
    hide MixChar;
    assert [c, d][..1] == [c] && [c][..0] == "";
  }

  lemma TwoChars(acc: Uint64)
    ensures Mix(acc, "Aa") == Mix(acc, "BB")
  {
    hide Mix;
    MixPair(acc, 'A', 'a');
    MixPair(acc, 'B', 'B');
    TwoRemainders(acc, 0x1_0000_0000_0000_0000);
  }

  /** Distinct URLs with one fingerprint, whatever surrounds the two characters. */
  lemma FingerprintsCollide(acc: Uint64, prefix: string, suffix: string)
    ensures Mix(acc, prefix + "Aa" + suffix) == Mix(acc, prefix + "BB" + suffix)
  {
    MixAppend(acc, prefix + "Aa", suffix);
    MixAppend(acc, prefix + "BB", suffix);
    MixAppend(acc, prefix, "Aa");
    MixAppend(acc, prefix, "BB");
    TwoChars(Mix(acc, prefix));
  }

  lemma SameFingerprint(a: Backend, b: Backend)
    requires a.url == "http://Aa" && b.url == "http://BB"
    ensures Fingerprint([a]) == Fingerprint([b])
  {
    FingerprintsCollide(0, "http://", "");
    assert "http://" + "Aa" + "" == "http://Aa" && "http://" + "BB" + "" == "http://BB";
    assert [a][..0] == [] && [b][..0] == [];
    hide Mix;
  }
}
