/** The key under which the member list compares display names: the name
    with its leading run of '@' removed, case-folded. Case folding is a
    library call and is passed in as the function `fold`. */
module NameKey {

  /** Length of the longest run of '@' at the start of `n`. */
  function LeadingAts(n: string): (k: nat)
    ensures k <= |n|
    ensures forall j :: 0 <= j < k ==> n[j] == '@'
    ensures k < |n| ==> n[k] != '@'
  {
    if |n| > 0 && n[0] == '@' then 1 + LeadingAts(n[1..]) else 0
  }

  /** The comparison key of `n`. A name made only of '@' (the empty name
      included) is folded whole rather than reduced to the empty string. */
  function Key(fold: string -> string, n: string): string
  {
    var i := LeadingAts(n);
    if i == |n| then fold(n) else fold(n[i..])
  }

  /** nachat's `Compare::key` scan, with the bound test placed before the read. */
  method ComputeKey(fold: string -> string, n: string) returns (k: string)
    ensures k == Key(fold, n)
  {
    var i := 0;
    while i < |n| && n[i] == '@'
      invariant 0 <= i <= |n|
      invariant forall j :: 0 <= j < i ==> n[j] == '@'
    {
      i := i + 1;
    }
    if i == |n| {
      return fold(n);
    }
    k := fold(n[i..]);
  }

  /** Any run of '@' in front of a name that starts with another character
      leaves the key unchanged: it is the fold of the name itself. */
  lemma KeyIgnoresAtPrefix(fold: string -> string, p: string, n: string)
    requires forall j :: 0 <= j < |p| ==> p[j] == '@'
    requires n != [] && n[0] != '@'
    ensures Key(fold, p + n) == fold(n)
  {
    var s := p + n;
    assert s[|p|] == n[0];
    assert LeadingAts(s) == |p|;
    assert s[|p|..] == n;
  }

  /** A name made only of '@' (or empty) is keyed by the fold of the whole name. */
  lemma KeyOfAtsOnly(fold: string -> string, n: string)
    requires forall j :: 0 <= j < |n| ==> n[j] == '@'
    ensures Key(fold, n) == fold(n)
  {
  }

  /** "@alice", "@@alice" and "alice" share one key. */
  lemma KeyExample(fold: string -> string)
    ensures Key(fold, "@alice") == Key(fold, "@@alice") == Key(fold, "alice") == fold("alice")
  {
  }

  /** Splitting a name into its '@' run `p` and the rest `s`: the key is the
      fold of `s`, or of the whole name when `s` is empty. */
  lemma KeyOfSplit(fold: string -> string, p: string, s: string)
    requires forall j :: 0 <= j < |p| ==> p[j] == '@'
    requires s == [] || s[0] != '@'
    ensures Key(fold, p + s) == if s == [] then fold(p + s) else fold(s)
  {
    if s == [] {
      assert p + s == p;
      KeyOfAtsOnly(fold, p);
    } else {
      KeyIgnoresAtPrefix(fold, p, s);
    }
  }

  // ---- nachat's `Compare::key` scan as written: the read comes before the bound test ----

  /** The indices at which the guard `n[i] == '@' && i < n.size()` reads `n`,
      starting from index `i`. At index |n| the read is outside the string;
      the model takes what it yields there to be some character other
      than '@', so the loop stops. */
  function GuardReads(n: string, i: nat): (r: seq<nat>)
    requires i <= |n|
    decreases |n| - i
  {
    if i < |n| && n[i] == '@' then [i] + GuardReads(n, i + 1) else [i]
  }

  /** Every read of the guard is at or after `i`, and at most at |n|. */
  lemma {:induction false} GuardReadsRange(n: string, i: nat)
    requires i <= |n|
    ensures forall j :: 0 <= j < |GuardReads(n, i)| ==> i <= GuardReads(n, i)[j] <= |n|
    decreases |n| - i
  {
    if i < |n| && n[i] == '@' {
      GuardReadsRange(n, i + 1);
    }
  }

  /** As written, the guard reads index |n| (one past the end) exactly when
      the rest of the name from `i` on is made only of '@'. */
  lemma {:induction false} GuardReadsPastEnd(n: string, i: nat)
    requires i <= |n|
    ensures |n| in GuardReads(n, i) <==> forall j :: i <= j < |n| ==> n[j] == '@'
    decreases |n| - i
  {
    GuardReadsRange(n, i);
    if i < |n| && n[i] == '@' {
      GuardReadsPastEnd(n, i + 1);
      assert GuardReads(n, i) == [i] + GuardReads(n, i + 1);
    } else if i < |n| {
      assert GuardReads(n, i) == [i];
    }
  }

  /** Concrete inputs: keying "" and "@" reads one index past the end. */
  lemma GuardReadsPastEndExamples()
    ensures GuardReads("", 0) == [0]
    ensures GuardReads("@", 0) == [0, 1]
  {
    assert GuardReads("@", 1) == [1];
  }
}
