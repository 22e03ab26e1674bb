/** RC4 by its laws: each step of the schedule and of the stream, and the permutation they keep. */
module Rc4Meaning {
  import opened Bits
  import opened Bytes
  import opened Rc4

  /** Two positions exchanged and the others kept. */
  predicate Exchanged(s: Table, t: Table, i: nat, j: nat)
    requires i < 256 && j < 256
  {
    t[i] == s[j] && t[j] == s[i] && forall k | 0 <= k < 256 && k != i && k != j :: t[k] == s[k]
  }

  lemma SwappedExactly(s: Table, i: byte, j: byte)
    ensures Exchanged(s, Swapped(s, i, j), i, j)
  {
  }

  /** The table is every byte once. */
  predicate Permutation(s: Table) {
    forall i, j | 0 <= i < j < 256 :: s[i] != s[j]
  }

  lemma ExchangedPermutation(s: Table, t: Table, i: nat, j: nat)
    requires i < 256 && j < 256 && Exchanged(s, t, i, j) && Permutation(s)
    ensures Permutation(t)
  {
    forall a, b | 0 <= a < b < 256
      ensures t[a] != t[b]
    {
      var x := if a == i then j else if a == j then i else a;
      var y := if b == i then j else if b == j then i else b;
      assert t[a] == s[x] && t[b] == s[y] && x != y;
    }
  }

  // ----- The key schedule -----

  lemma ScheduleStarts(key: seq<byte>)
    ensures Scheduled(key, 0).1 == 0 && forall i | 0 <= i < 256 :: Scheduled(key, 0).0[i] == i
  {
  }

  /** Step `n` adds the table and the repeated key to `j`, modulo 256, and exchanges positions `n` and `j`. */
  lemma ScheduleStep(key: seq<byte>, n: nat)
    requires n < 256
    ensures var (s, j) := Scheduled(key, n);
            var (t, k) := Scheduled(key, n + 1);
            && k == (j as int + s[n] as int + (if |key| > 0 then key[n % |key|] as int else 0)) % 256
            && Exchanged(s, t, n, k)
  {
    hide Swapped;
    var (s, j) := Scheduled(key, n);
    var (t, k) := Scheduled(key, n + 1);
    SwappedExactly(s, n, k);
    SumTwice(j, s[n], KeyByte(key, n));
  }

  lemma SumTwice(a: byte, b: byte, c: byte)
    ensures Sum(Sum(a, b), c) == (a as int + b as int + c as int) % 256
  {
  }

  lemma {:induction false} SchedulePermutes(key: seq<byte>, n: nat)
    requires n <= 256
    ensures Permutation(Scheduled(key, n).0)
    decreases n
  {
    hide Scheduled, Exchanged;
    if n == 0 {
      ScheduleStarts(key);
    } else {
      SchedulePermutes(key, n - 1);
      ScheduleStep(key, n - 1);
      var (s, j) := Scheduled(key, n - 1);
      var (t, k) := Scheduled(key, n);
      ExchangedPermutation(s, t, n - 1, k);
    }
  }

  // ----- The stream -----

  lemma StreamStarts(key: seq<byte>)
    ensures After(key, 0) == Generator(Scheduled(key, 256).0, 0, 0)
  {
    hide Scheduled;
  }

  lemma AdvancedExactly(g: Generator)
    ensures var h := Advanced(g);
            && h.i == (g.i as int + 1) % 256
            && h.j == (g.j as int + g.table[h.i] as int) % 256
            && Exchanged(g.table, h.table, h.i, h.j)
  {
    hide Swapped, Exchanged;
    var h := Advanced(g);
    SwappedExactly(g.table, h.i, h.j);
  }

  lemma OutputExactly(h: Generator)
    ensures Output(h) == h.table[(h.table[h.i] as int + h.table[h.j] as int) % 256]
  {
  }

  lemma {:induction false} Counter(key: seq<byte>, n: nat)
    ensures After(key, n).i == n % 256
    decreases n
  {
    hide Advanced, Scheduled;
    if n > 0 {
      Counter(key, n - 1);
      AdvancedExactly(After(key, n - 1));
      Modulo(n - 1);
    }
  }

  lemma Modulo(n: nat)
    ensures (n % 256 + 1) % 256 == (n + 1) % 256
  {
  }

  /** Byte `n` of the stream: `i` counts, `j` adds the table, the two are exchanged, and their sum selects the byte. */
  lemma StreamStep(key: seq<byte>, n: nat)
    ensures var g, h := After(key, n), After(key, n + 1);
            && h.i == (n + 1) % 256
            && h.j == (g.j as int + g.table[h.i] as int) % 256
            && Exchanged(g.table, h.table, h.i, h.j)
            && KeyStream(key, n + 1)[n] == h.table[(h.table[h.i] as int + h.table[h.j] as int) % 256]
  {
    hide Advanced, Output, Scheduled, Exchanged;
    Counter(key, n + 1);
    AdvancedExactly(After(key, n));
    OutputExactly(After(key, n + 1));
  }

  /** Whatever the key, the table is a permutation of the bytes at every point. */
  lemma {:induction false} StreamPermutes(key: seq<byte>, n: nat)
    ensures Permutation(After(key, n).table)
    decreases n
  {
    hide After, Exchanged, KeyStream, Scheduled;
    if n == 0 {
      StreamStarts(key);
      SchedulePermutes(key, 256);
    } else {
      StreamPermutes(key, n - 1);
      StreamStep(key, n - 1);
      var g, h := After(key, n - 1), After(key, n);
      ExchangedPermutation(g.table, h.table, h.i, h.j);
    }
  }

  /** The stream does not depend on how much of it is asked for. */
  lemma {:induction false} StreamPrefix(key: seq<byte>, m: nat, n: nat)
    requires m <= n
    ensures KeyStream(key, n)[..m] == KeyStream(key, m)
    decreases n
  {
    hide After, Output;
    if m < n {
      StreamPrefix(key, m, n - 1);
      assert KeyStream(key, n)[..m] == KeyStream(key, n - 1)[..m];
    }
  }
}
