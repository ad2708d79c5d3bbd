/**
 * The in-kernel test framework of test.c: a fixed table of registered
 * test cases, the pass/fail/skip counters, the runs over all tests or one
 * suite, and the summary.  A test function is a handle; what calling it
 * returns is given by the parameter `run`.
 */
module TestRegistry {
  const TEST_PASS: int := 0
  const TEST_FAIL: int := 1
  const TEST_SKIP: int := 2
  /** The capacity of the test table. */
  const MAX_TESTS: nat := 128

  /** A `const char *`: NULL, or the characters before the terminating NUL. */
  datatype CStr = Null | Str(chars: seq<char>)

  /** A string's characters stop at its terminator: none of them is NUL. */
  predicate CStrOk(s: CStr) {
    s.Str? ==> forall i :: 0 <= i < |s.chars| ==> s.chars[i] != '\0'
  }

  /** The character at offset `i` of a string, reading the terminator just past its end. */
  function CharAt(s: seq<char>, i: nat): char
    requires i <= |s|
  {
    if i < |s| then s[i] else '\0'
  }

  /**
   * str_equals: two NULL pointers are equal, a NULL and a string are not,
   * and two strings are equal exactly when their characters are.
   */
  method StrEquals(a: CStr, b: CStr) returns (r: bool)
    requires CStrOk(a) && CStrOk(b)
    ensures r <==> a == b
  {
    if a == Null || b == Null {
      return a == b;
    }
    var x, y := a.chars, b.chars;
    var i := 0;
    while CharAt(x, i) != '\0' && CharAt(y, i) != '\0'
      invariant i <= |x| && i <= |y| && x[..i] == y[..i]
      decreases |x| - i
    {
      if x[i] != y[i] {
        return false;
      }
      i := i + 1;
    }
    r := CharAt(x, i) == CharAt(y, i);
    if r {
      assert i == |x| && i == |y|;
      assert x == x[..i] && y == y[..i];
    }
  }

  /** struct test_case: the test's name, its suite, and its function. */
  datatype TestCase = TestCase(name: CStr, suite: CStr, func: nat)

  predicate CaseOk(t: TestCase) {
    CStrOk(t.name) && CStrOk(t.suite)
  }

  /** The three counters. */
  datatype Counts = Counts(pass: nat, fail: nat, skip: nat)

  function Total(c: Counts): nat {
    c.pass + c.fail + c.skip
  }

  /**
   * run_single_test's accounting of one result: exactly one counter goes
   * up by one; TEST_PASS counts as a pass, TEST_SKIP as a skip, and
   * TEST_FAIL or any other value as a failure.
   */
  function Tally(c: Counts, result: int): (d: Counts)
    ensures Total(d) == Total(c) + 1
    ensures result == TEST_PASS ==> d == c.(pass := c.pass + 1)
    ensures result == TEST_SKIP ==> d == c.(skip := c.skip + 1)
    ensures result != TEST_PASS && result != TEST_SKIP ==> d == c.(fail := c.fail + 1)
  {
    if result == TEST_PASS then c.(pass := c.pass + 1)
    else if result == TEST_FAIL then c.(fail := c.fail + 1)
    else if result == TEST_SKIP then c.(skip := c.skip + 1)
    else c.(fail := c.fail + 1)
  }

  /** The counters after running the tests `ts` in order from `c`. */
  function TallyRun(c: Counts, ts: seq<TestCase>, run: nat -> int): Counts {
    if ts == [] then c else Tally(TallyRun(c, ts[..|ts| - 1], run), run(ts[|ts| - 1].func))
  }

  /** Running one more test adds its result to the counters. */
  lemma TallyRunStep(c: Counts, ts: seq<TestCase>, i: nat, run: nat -> int)
    requires i < |ts|
    ensures TallyRun(c, ts[..i + 1], run) == Tally(TallyRun(c, ts[..i], run), run(ts[i].func))
  {
    assert ts[..i + 1][..i] == ts[..i];
  }

  /** A run of `ts` adds exactly `|ts|` to pass + fail + skip, and takes nothing away from any counter. */
  lemma {:induction false} TallyRunTotal(c: Counts, ts: seq<TestCase>, run: nat -> int)
    ensures var d := TallyRun(c, ts, run);
      Total(d) == Total(c) + |ts| && d.pass >= c.pass && d.fail >= c.fail && d.skip >= c.skip
  {
    if ts != [] {
      TallyRunTotal(c, ts[..|ts| - 1], run);
    }
  }

  /**
   * A run from zero counters leaves no failure exactly when every test
   * returned TEST_PASS or TEST_SKIP.
   */
  lemma {:induction false} TallyRunNoFailure(c: Counts, ts: seq<TestCase>, run: nat -> int)
    ensures TallyRun(c, ts, run).fail == c.fail <==>
      forall i :: 0 <= i < |ts| ==> run(ts[i].func) == TEST_PASS || run(ts[i].func) == TEST_SKIP
  {
    if ts != [] {
      var init := ts[..|ts| - 1];
      TallyRunNoFailure(c, init, run);
      TallyRunTotal(c, init, run);
      assert forall i :: 0 <= i < |init| ==> init[i] == ts[i];
    }
  }

  /** The tests of `ts` whose suite is `suite`, in registration order. */
  function SuiteTests(ts: seq<TestCase>, suite: CStr): seq<TestCase> {
    if ts == [] then []
    else SuiteTests(ts[..|ts| - 1], suite) + (if ts[|ts| - 1].suite == suite then [ts[|ts| - 1]] else [])
  }

  lemma SuiteTestsStep(ts: seq<TestCase>, i: nat, suite: CStr)
    requires i < |ts|
    ensures SuiteTests(ts[..i + 1], suite) == SuiteTests(ts[..i], suite) + (if ts[i].suite == suite then [ts[i]] else [])
  {
    assert ts[..i + 1][..i] == ts[..i];
  }

  /**
   * The suite filter keeps exactly the tests of that suite: every test it
   * keeps is registered and belongs to the suite, and every registered test
   * of the suite is kept.
   */
  lemma {:induction false} SuiteTestsExact(ts: seq<TestCase>, suite: CStr)
    ensures forall t :: t in SuiteTests(ts, suite) ==> t in ts && t.suite == suite
    ensures forall i :: 0 <= i < |ts| && ts[i].suite == suite ==> ts[i] in SuiteTests(ts, suite)
    ensures |SuiteTests(ts, suite)| <= |ts|
  {
    if ts != [] {
      var init := ts[..|ts| - 1];
      SuiteTestsExact(init, suite);
      forall i | 0 <= i < |ts| - 1
        ensures ts[i] == init[i]
      {
      }
    }
  }

  /** Whether test_run_all prints a suite header before test `i`: its suite differs from the previous test's. */
  predicate HeaderAt(ts: seq<TestCase>, i: nat)
    requires i < |ts|
  {
    ts[i].suite != (if i == 0 then Null else ts[i - 1].suite)
  }

  datatype Verdict = AllPassed | SomeFailed | NoVerdict

  /** What test_print_summary prints: the four counts and the closing verdict. */
  datatype Summary = Summary(total: nat, passed: nat, failed: nat, skipped: nat, verdict: Verdict)

  /**
   * The summary of the counters: the total is pass + fail + skip; "ALL
   * TESTS PASSED" exactly when nothing failed and something ran, "SOME TESTS
   * FAILED" exactly when something failed, and no verdict when nothing ran.
   */
  function Summarize(c: Counts): (s: Summary)
    ensures s.total == Total(c) && s.passed == c.pass && s.failed == c.fail && s.skipped == c.skip
    ensures s.verdict == AllPassed <==> c.fail == 0 && Total(c) > 0
    ensures s.verdict == SomeFailed <==> c.fail > 0
    ensures s.verdict == NoVerdict <==> Total(c) == 0
  {
    var total := c.pass + c.fail + c.skip;
    Summary(total, c.pass, c.fail, c.skip,
            if c.fail == 0 && total > 0 then AllPassed else if c.fail > 0 then SomeFailed else NoVerdict)
  }

  /**
   * A run of a non-empty table from zero counters ends in "ALL TESTS PASSED"
   * exactly when no test returned anything but TEST_PASS or TEST_SKIP.
   */
  lemma RunVerdict(ts: seq<TestCase>, run: nat -> int)
    requires ts != []
    ensures Summarize(TallyRun(Counts(0, 0, 0), ts, run)).verdict == AllPassed <==>
      forall i :: 0 <= i < |ts| ==> run(ts[i].func) == TEST_PASS || run(ts[i].func) == TEST_SKIP
  {
    TallyRunTotal(Counts(0, 0, 0), ts, run);
    TallyRunNoFailure(Counts(0, 0, 0), ts, run);
  }

  /**
   * The framework's static state: the table `tests` with its first
   * `testCount` entries registered, the three counters, and the names of
   * the test being run.
   */
  class Registry {
    const tests: array<TestCase>
    var testCount: nat
    var passCount: nat
    var failCount: nat
    var skipCount: nat
    var currentTestName: CStr
    var currentSuiteName: CStr

    ghost predicate Valid()
      reads this, tests
    {
      tests.Length == MAX_TESTS && testCount <= MAX_TESTS &&
      forall i :: 0 <= i < testCount ==> CaseOk(tests[i])
    }

    /** The registered tests, in registration order. */
    ghost function Registered(): seq<TestCase>
      reads this, tests
      requires testCount <= tests.Length
    {
      tests[..testCount]
    }

    function Counters(): Counts
      reads this
    {
      Counts(passCount, failCount, skipCount)
    }

    /** The zero-initialised statics. */
    constructor ()
      ensures Valid() && fresh(tests) && Registered() == [] && Counters() == Counts(0, 0, 0)
      ensures currentTestName == Null && currentSuiteName == Null
    {
      tests := new TestCase[MAX_TESTS](_ => TestCase(Null, Null, 0));
      testCount := 0;
      passCount, failCount, skipCount := 0, 0, 0;
      currentTestName, currentSuiteName := Null, Null;
    }

    /** test_init: forget every registration and zero the counters; the table's contents stay. */
    method TestInit()
      requires Valid()
      modifies this
      ensures Valid() && Registered() == [] && Counters() == Counts(0, 0, 0)
      ensures currentTestName == old(currentTestName) && currentSuiteName == old(currentSuiteName)
    {
      testCount := 0;
      passCount, failCount, skipCount := 0, 0, 0;
    }

    /**
     * test_register: append the test at index testCount while the table has
     * room; on a full table report the error and change nothing.
     * `accepted` says which happened.
     */
    method TestRegister(name: CStr, suite: CStr, func: nat) returns (accepted: bool)
      requires Valid() && CStrOk(name) && CStrOk(suite)
      modifies this, tests
      ensures Valid() && Counters() == old(Counters())
      ensures currentTestName == old(currentTestName) && currentSuiteName == old(currentSuiteName)
      ensures accepted <==> old(testCount) < MAX_TESTS
      ensures accepted ==> Registered() == old(Registered()) + [TestCase(name, suite, func)]
      ensures !accepted ==> Registered() == old(Registered()) && tests[..] == old(tests[..])
    {
      if testCount >= MAX_TESTS {
        return false;
      }
      tests[testCount] := TestCase(name, suite, func);
      testCount := testCount + 1;
      accepted := true;
    }

    /**
     * run_single_test: note the test as current, call its function and
     * count the result.
     */
    method RunSingleTest(tc: TestCase, run: nat -> int)
      requires Valid()
      modifies this
      ensures Valid() && testCount == old(testCount)
      ensures Counters() == Tally(old(Counters()), run(tc.func))
      ensures currentTestName == tc.name && currentSuiteName == tc.suite
    {
      currentTestName := tc.name;
      currentSuiteName := tc.suite;
      var result := run(tc.func);
      if result == TEST_PASS {
        passCount := passCount + 1;
      } else if result == TEST_FAIL {
        failCount := failCount + 1;
      } else if result == TEST_SKIP {
        skipCount := skipCount + 1;
      } else {
        failCount := failCount + 1;
      }
    }

    /** test_print_summary: the summary of the current counters. */
    method TestPrintSummary() returns (s: Summary)
      ensures s == Summarize(Counters())
    {
      var total := passCount + failCount + skipCount;
      var verdict := NoVerdict;
      if failCount == 0 && total > 0 {
        verdict := AllPassed;
      } else if failCount > 0 {
        verdict := SomeFailed;
      }
      s := Summary(total, passCount, failCount, skipCount, verdict);
    }

    /**
     * test_run_all: run every registered test once, in order, printing a
     * suite header before each test whose suite differs from the previous
     * one's (`headerAt`), then the summary.
     */
    method TestRunAll(run: nat -> int) returns (headerAt: seq<bool>, summary: Summary)
      requires Valid()
      modifies this
      ensures Valid() && testCount == old(testCount)
      ensures Counters() == TallyRun(old(Counters()), Registered(), run)
      ensures |headerAt| == testCount && forall j :: 0 <= j < testCount ==> (headerAt[j] <==> HeaderAt(Registered(), j))
      ensures summary == Summarize(Counters())
    {
      ghost var c0 := Counters();
      var last := Null;
      headerAt := [];
      var i := 0;
      while i < testCount
        invariant Valid() && testCount == old(testCount) && i <= testCount
        invariant Counters() == TallyRun(c0, Registered()[..i], run)
        invariant last == if i == 0 then Null else tests[i - 1].suite
        invariant |headerAt| == i && forall j :: 0 <= j < i ==> (headerAt[j] <==> HeaderAt(Registered(), j))
      {
        var same := StrEquals(tests[i].suite, last);
        if !same {
          last := tests[i].suite;
        }
        headerAt := headerAt + [!same];
        TallyRunStep(c0, Registered(), i, run);
        RunSingleTest(tests[i], run);
        i := i + 1;
      }
      assert Registered()[..i] == Registered();
      summary := TestPrintSummary();
    }

    /**
     * test_run_suite: run exactly the registered tests whose suite equals
     * `suiteName`, in registration order, then the summary; `noneFound`
     * says whether the "no tests found" line was printed.
     */
    method TestRunSuite(suiteName: CStr, run: nat -> int) returns (ran: seq<TestCase>, noneFound: bool, summary: Summary)
      requires Valid() && CStrOk(suiteName)
      modifies this
      ensures Valid() && testCount == old(testCount)
      ensures ran == SuiteTests(Registered(), suiteName)
      ensures Counters() == TallyRun(old(Counters()), ran, run)
      ensures noneFound <==> ran == []
      ensures summary == Summarize(Counters())
    {
      ghost var c0 := Counters();
      ran := [];
      var suiteTests := 0;
      var i := 0;
      while i < testCount
        invariant Valid() && testCount == old(testCount) && i <= testCount
        invariant ran == SuiteTests(Registered()[..i], suiteName) && suiteTests == |ran|
        invariant Counters() == TallyRun(c0, ran, run)
      {
        SuiteTestsStep(Registered(), i, suiteName);
        var same := StrEquals(tests[i].suite, suiteName);
        if same {
          TallyRunStep(c0, ran + [tests[i]], |ran|, run);
          assert (ran + [tests[i]])[..|ran|] == ran;
          RunSingleTest(tests[i], run);
          ran := ran + [tests[i]];
          suiteTests := suiteTests + 1;
        }
        i := i + 1;
      }
      assert Registered()[..i] == Registered();
      noneFound := suiteTests == 0;
      summary := TestPrintSummary();
    }
  }
}
