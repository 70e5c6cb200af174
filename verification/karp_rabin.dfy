/** Rabin-Karp string matching: the pattern and every window of the text are
    read as numbers in base `d` (one digit per character, `d` the number of
    distinct characters of text and pattern), compared modulo `Q`, and a
    hash hit is confirmed character by character. */
module KarpRabin {

  /** The modulus. */
  const Q: int := 999983

  /** A digit assignment as `rune_to_int` builds it: every character of `s`
      gets a distinct digit in `[0, |code|)` and nothing else gets one.
      Which character gets which digit follows the iteration order of a
      set, so the matcher is stated for every such assignment. */
  predicate IsCoding(code: map<char, nat>, s: string)
  {
    (forall c :: c in code <==> c in s)
    && (forall c :: c in code ==> code[c] < |code|)
    && (forall a, b :: a in code && b in code && a != b ==> code[a] != code[b])
  }

  /** The distinct characters of `s` in order of first occurrence. */
  function Distinct(s: string): (d: seq<char>)
    ensures forall c :: c in d <==> c in s
    ensures forall i, j :: 0 <= i < j < |d| ==> d[i] != d[j]
  {
    if |s| == 0 then []
    else
      var d := Distinct(s[..|s| - 1]);
      assert forall c :: c in s <==> c in s[..|s| - 1] || c == s[|s| - 1];
      if s[|s| - 1] in d then d else d + [s[|s| - 1]]
  }

  function IndexOf(d: seq<char>, c: char): (i: nat)
    requires c in d
    ensures i < |d| && d[i] == c
  {
    if d[0] == c then 0 else 1 + IndexOf(d[1..], c)
  }

  /** One digit assignment: each character's position among the distinct
      characters. */
  function Coding(s: string): map<char, nat>
  {
    var d := Distinct(s);
    map c | c in d :: IndexOf(d, c)
  }

  lemma {:induction false} DistinctCount(d: seq<char>)
    requires forall i, j :: 0 <= i < j < |d| ==> d[i] != d[j]
    ensures |set c | c in d| == |d|
  {
    if |d| > 0 {
      var d' := d[..|d| - 1];
      DistinctCount(d');
      assert d == d' + [d[|d| - 1]];
      assert (set c | c in d) == (set c | c in d') + {d[|d| - 1]};
      assert d[|d| - 1] !in d';
    }
  }

  /** The assignment of `Coding` is a legal `rune_to_int`. */
  lemma CodingIsCoding(s: string)
    ensures IsCoding(Coding(s), s)
  {
    var d := Distinct(s);
    var code := Coding(s);
    assert code.Keys == set c | c in d;
    DistinctCount(d);
    assert |code| == |d|;
    forall a, b | a in code && b in code && a != b ensures code[a] != code[b] {
      assert d[code[a]] == a && d[code[b]] == b;
    }
  }

  function Pow(b: int, e: nat): int
  {
    if e == 0 then 1 else b * Pow(b, e - 1)
  }

  /** The digit of a character; characters outside the assignment never
      occur where it is used. */
  function Digit(code: map<char, nat>, c: char): nat
  {
    if c in code then code[c] else 0
  }

  /** The value of `s` read as a base-`d` numeral, most significant digit
      first. */
  function Hash(code: map<char, nat>, d: int, s: string): int
  {
    if |s| == 0 then 0
    else d * Hash(code, d, s[..|s| - 1]) + Digit(code, s[|s| - 1])
  }

  /** The leading digit of a numeral carries weight `d^(|w|)`. */
  lemma {:induction false} HashCons(code: map<char, nat>, d: int, c: char, w: string)
    ensures Hash(code, d, [c] + w) == Pow(d, |w|) * Digit(code, c) + Hash(code, d, w)
  {
    if |w| > 0 {
      var w' := w[..|w| - 1];
      assert ([c] + w)[..|w|] == [c] + w';
      HashCons(code, d, c, w');
      var x, y, e := Digit(code, c), Digit(code, w[|w| - 1]), Pow(d, |w'|);
      assert w == w' + [w[|w| - 1]];
      assert Hash(code, d, [c] + w) == d * Hash(code, d, [c] + w') + y;
      assert Hash(code, d, w) == d * Hash(code, d, w') + y;
      assert Pow(d, |w|) == d * e;
      Distribute(d, e, x, Hash(code, d, w'), y);
    }
  }

  /** Shifting a numeral whose leading digit has weight `e`. */
  lemma Distribute(d: int, e: int, x: int, h: int, y: int)
    ensures d * (e * x + h) + y == (d * e) * x + (d * h + y)
  {
    assert d * (e * x + h) == d * (e * x) + d * h;
    assert d * (e * x) == (d * e) * x;
  }

  /** Sliding the window one place: drop the leading digit, shift, append. */
  lemma HashRoll(code: map<char, nat>, d: int, T: string, s: nat, m: nat)
    requires 0 < m && s + m < |T|
    ensures Hash(code, d, T[s + 1..s + m + 1])
         == d * (Hash(code, d, T[s..s + m]) - Pow(d, m - 1) * Digit(code, T[s])) + Digit(code, T[s + m])
  {
    var w := T[s + 1..s + m];
    assert T[s..s + m] == [T[s]] + w;
    assert T[s + 1..s + m + 1][..m - 1] == w;
    HashCons(code, d, T[s], w);
  }

  /** Adding a multiple of the modulus does not change the residue. */
  lemma ModAddMultiple(a: int, k: int)
    ensures (a + k * Q) % Q == a % Q
  {
  }

  /** The update of the prefix residue: `(d * (x % Q) + c) % Q`. */
  lemma ModStep(x: int, d: int, c: int)
    ensures (d * (x % Q) + c) % Q == (d * x + c) % Q
  {
    var k := x / Q;
    assert x == k * Q + x % Q;
    assert d * x + c == (d * (x % Q) + c) + (d * k) * Q;
    ModAddMultiple(d * (x % Q) + c, d * k);
  }

  /** The rolling update on residues agrees with the update on numerals. */
  lemma ModRoll(H: int, D: int, d: int, a: int, b: int)
    ensures (d * (H % Q - (D % Q) * a) + b) % Q == (d * (H - D * a) + b) % Q
  {
    var kh, kd := H / Q, D / Q;
    var t, h := H % Q, D % Q;
    assert H == kh * Q + t;
    assert D == kd * Q + h;
    var lhs := d * (t - h * a) + b;
    assert D * a == h * a + (kd * a) * Q;
    assert d * (H - D * a) + b == lhs + (d * kh - d * (kd * a)) * Q;
    ModAddMultiple(lhs, d * kh - d * (kd * a));
  }

  /** Shifts below `k` at which `P` occurs in `T`, ascending: the reference
      the matcher is measured against. */
  function ShiftsBelow(T: string, P: string, k: nat): (r: seq<int>)
    requires k + |P| <= |T| + 1
  {
    if k == 0 then []
    else ShiftsBelow(T, P, k - 1) + (if T[k - 1..k - 1 + |P|] == P then [k - 1] else [])
  }

  /** The reference holds exactly the occurring shifts, in strictly
      ascending order. */
  lemma {:induction false} ShiftsBelowExact(T: string, P: string, k: nat)
    requires k + |P| <= |T| + 1
    ensures forall s :: s in ShiftsBelow(T, P, k) <==> 0 <= s < k && T[s..s + |P|] == P
    ensures forall i, j :: 0 <= i < j < |ShiftsBelow(T, P, k)|
              ==> ShiftsBelow(T, P, k)[i] < ShiftsBelow(T, P, k)[j]
  {
    if k > 0 {
      ShiftsBelowExact(T, P, k - 1);
      var prev := ShiftsBelow(T, P, k - 1);
      forall i | 0 <= i < |prev| ensures prev[i] < k - 1 {
        assert prev[i] in prev;
      }
    }
  }

  /** The reference over every shift, stated for the matcher's result. */
  lemma AllShifts(T: string, P: string, ret: seq<int>)
    requires |P| <= |T| && ret == ShiftsBelow(T, P, |T| - |P| + 1)
    ensures forall s :: s in ret <==> 0 <= s <= |T| - |P| && T[s..s + |P|] == P
    ensures forall i, j :: 0 <= i < j < |ret| ==> ret[i] < ret[j]
  {
    ShiftsBelowExact(T, P, |T| - |P| + 1);
  }

  /** The first loop: residues of the pattern and of the text's first
      window, built digit by digit. */
  method InitialResidues(T: string, P: string, code: map<char, nat>, d: int)
    returns (p: int, t: int)
    requires |T| >= |P|
    requires forall c :: c in T ==> c in code
    requires forall c :: c in P ==> c in code
    ensures p == Hash(code, d, P) % Q
    ensures t == Hash(code, d, T[..|P|]) % Q
  {
    var m := |P|;
    p := 0;
    t := 0;
    for i := 0 to m
      invariant p == Hash(code, d, P[..i]) % Q
      invariant t == Hash(code, d, T[..i]) % Q
    {
      assert P[..i + 1][..i] == P[..i] && T[..i + 1][..i] == T[..i];
      ModStep(Hash(code, d, P[..i]), d, Digit(code, P[i]));
      ModStep(Hash(code, d, T[..i]), d, Digit(code, T[i]));
      p := (d * p + code[P[i]]) % Q;
      t := (d * t + code[T[i]]) % Q;
    }
    assert P[..m] == P;
  }

  /** The spurious-hit test: `P` compared with the window character by
      character, stopping at the first difference. */
  method Confirm(T: string, P: string, shift: nat) returns (same: bool)
    requires shift + |P| <= |T|
    ensures same <==> T[shift..shift + |P|] == P
  {
    var m := |P|;
    same := true;
    var j := 0;
    while j < m && same
      invariant 0 <= j <= m
      invariant same <==> T[shift..shift + j] == P[..j]
    {
      assert T[shift..shift + j + 1] == T[shift..shift + j] + [T[shift + j]];
      assert P[..j + 1] == P[..j] + [P[j]];
      same := P[j] == T[j + shift];
      j := j + 1;
    }
    if !same {
      assert T[shift..shift + j] == T[shift..shift + m][..j];
      assert P[..j] == P[..m][..j];
    }
  }

  /** The residue of the next window from that of the current one. */
  method Roll(T: string, code: map<char, nat>, d: int, m: nat, h: int, t: int, shift: nat)
    returns (t': int)
    requires 0 < m && shift + m < |T|
    requires forall c :: c in T ==> c in code
    requires h == Pow(d, m - 1) % Q
    requires t == Hash(code, d, T[shift..shift + m]) % Q
    ensures t' == Hash(code, d, T[shift + 1..shift + 1 + m]) % Q
  {
    HashRoll(code, d, T, shift, m);
    ModRoll(Hash(code, d, T[shift..shift + m]), Pow(d, m - 1), d,
            Digit(code, T[shift]), Digit(code, T[shift + m]));
    assert T[shift] in T && T[shift + m] in T;
    t' := (d * (t - h * code[T[shift]]) + code[T[shift + m]]) % Q;
  }

  /** The test at one shift: equal residues are confirmed character by
      character, and a confirmed shift is recorded. */
  method Hit(T: string, P: string, code: map<char, nat>, d: int, p: int, t: int,
             shift: nat, ret0: seq<int>) returns (ret: seq<int>)
    requires shift + |P| <= |T|
    requires p == Hash(code, d, P) % Q && t == Hash(code, d, T[shift..shift + |P|]) % Q
    requires ret0 == ShiftsBelow(T, P, shift)
    ensures ret == ShiftsBelow(T, P, shift + 1)
  {
    ret := ret0;
    if p == t {
      var same := Confirm(T, P, shift);
      if same {
        ret := ret + [shift];
      }
    }
  }

  /** The main loop: compare residues at every shift, confirm each hit
      character by character, and roll the window's residue forward. */
  method Scan(T: string, P: string, code: map<char, nat>, d: int, p: int, t0: int)
    returns (ret: seq<int>)
    requires |T| >= |P| > 0
    requires forall c :: c in T ==> c in code
    requires p == Hash(code, d, P) % Q
    requires t0 == Hash(code, d, T[0..|P|]) % Q
    ensures ret == ShiftsBelow(T, P, |T| - |P| + 1)
  {
    var n := |T|;
    var m := |P|;
    var h := Pow(d, m - 1) % Q;
    var t := t0;
    ret := [];
    for shift := 0 to n - m + 1
      invariant shift <= n - m ==> t == Hash(code, d, T[shift..shift + m]) % Q
      invariant ret == ShiftsBelow(T, P, shift)
    {
      ret := Hit(T, P, code, d, p, t, shift, ret);
      if shift < n - m {
        t := Roll(T, code, d, m, h, t, shift);
      }
    }
  }

  /** `match_Karp_Rabin(T, P)` with the digit assignment `code` that
      `rune_to_int` happened to build: the list of every shift at which `P`
      occurs in `T`, ascending, whatever the hash collisions. */
  method MatchKarpRabin(T: string, P: string, code: map<char, nat>) returns (ret: seq<int>)
    requires |T| >= |P| > 0
    requires IsCoding(code, T + P)
    ensures ret == ShiftsBelow(T, P, |T| - |P| + 1)
    ensures forall s :: s in ret <==> 0 <= s <= |T| - |P| && T[s..s + |P|] == P
    ensures forall i, j :: 0 <= i < j < |ret| ==> ret[i] < ret[j]
  {
    assert forall c :: c in T ==> c in T + P;
    assert forall c :: c in P ==> c in T + P;
    var d := |code|;
    var p, t := InitialResidues(T, P, code, d);
    assert T[..|P|] == T[0..|P|];
    ret := Scan(T, P, code, d, p, t);
    AllShifts(T, P, ret);
  }

  /** The matcher's outcome does not depend on which legal digit assignment
      the set order produced. */
  method MatchKarpRabinDefault(T: string, P: string) returns (ret: seq<int>)
    requires |T| >= |P| > 0
    ensures forall s :: s in ret <==> 0 <= s <= |T| - |P| && T[s..s + |P|] == P
    ensures forall i, j :: 0 <= i < j < |ret| ==> ret[i] < ret[j]
  {
    CodingIsCoding(T + P);
    ret := MatchKarpRabin(T, P, Coding(T + P));
  }
}
