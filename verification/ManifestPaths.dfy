/** Which suite a test path names. */
module ManifestPaths {
  import opened ManifestModel

  predicate SeparatorAt(s: string, i: nat) {
    i + 2 <= |s| && s[i] == ':' && s[i + 1] == ':'
  }

  /** A name without `::`. */
  predicate Simple(s: string) {
    forall i: nat | i < |s| :: !SeparatorAt(s, i)
  }

  /** A path names a suite when it is the suite, or ends in `::` and the suite. */
  predicate Names(test: string, suite: string) {
    Simple(suite) && (test == suite || Qualifies(test, suite))
  }

  predicate Qualifies(test: string, suite: string) {
    var start := |test| - |suite|;
    start >= 2 && SeparatorAt(test, start - 2) && test[start..] == suite && (suite != [] ==> suite[0] != ':')
  }

  /** `rsplit` on the last `::` answers exactly the name that the path ends in. */
  lemma ShortExactly(test: string, suite: string)
    ensures Short(test) == suite <==> Names(test, suite)
  {
    ShortFromExactly(test, |test|, suite);
  }

  lemma {:induction false} ShortFromExactly(test: string, at: nat, suite: string)
    requires at <= |test| && forall k: nat | at <= k + 1 && k + 2 <= |test| && k + 2 > at :: !SeparatorAt(test, k)
    ensures ShortFrom(test, at) == suite <==> Names(test, suite)
    decreases at
  {
    if at < 2 {
      NoSeparator(test, suite);
    } else {
      assert test[at - 2..at] == [test[at - 2], test[at - 1]];
      if test[at - 2..at] == "::" {
        LastSeparator(test, at, suite);
      } else {
        ShortFromExactly(test, at - 1, suite);
      }
    }
  }

  lemma NoSeparator(test: string, suite: string)
    requires forall k: nat | k + 2 <= |test| :: !SeparatorAt(test, k)
    ensures test == suite <==> Names(test, suite)
  {
    assert Simple(test);
  }

  lemma LastSeparator(test: string, at: nat, suite: string)
    requires 2 <= at <= |test| && SeparatorAt(test, at - 2)
    requires forall k: nat | at <= k + 1 && k + 2 <= |test| && k + 2 > at :: !SeparatorAt(test, k)
    ensures test[at..] == suite <==> Names(test, suite)
  {
    var last := test[at..];
    forall i: nat | i < |last|
      ensures !SeparatorAt(last, i)
    {
      assert SeparatorAt(last, i) ==> SeparatorAt(test, at + i);
    }
    assert last != [] && last[0] == ':' ==> SeparatorAt(test, at - 1);
    assert Qualifies(test, last);
    if Simple(suite) && Qualifies(test, suite) {
      var start := |test| - |suite|;
      forall k: nat | start <= k < |test|
        ensures !SeparatorAt(test, k)
      {
        assert !SeparatorAt(suite, k - start);
      }
      assert suite != [] ==> suite[0] == test[start];
      assert start == at;
    }
  }

  /** A compiled test that is not ignored and whose path names no meta test. */
  predicate CanRun(t: Target, test: string, meta: set<string>) {
    test in t.tests && test !in t.ignored && forall name | name in meta :: !Names(test, name)
  }

  lemma RunnableExactly(t: Target, test: string, meta: set<string>)
    ensures Runnable(t, test, meta) <==> CanRun(t, test, meta)
  {
    hide Short, Names;
    forall name
      ensures Short(test) == name <==> Names(test, name)
    {
      ShortExactly(test, name);
    }
  }
}
