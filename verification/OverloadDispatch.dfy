/** Overload groups: which (method, arity) branches are generated, when a group is refused as ambiguous,
    and what the generated first-match dispatch does. Type names are plain strings. */
module OverloadDispatch {
  import opened Wrappers

  datatype Argument = Argument(anyCastType: string, hasDefault: bool)

  datatype Method = Method(name: string, arguments: seq<Argument>, required: nat)

  /** One generated branch: a method of the group called with its first `arity` arguments. */
  datatype Candidate = Candidate(owner: nat, arity: nat)

  /** The refusal of `validate_method_group`, naming the branch at which it was noticed. */
  datatype Verdict = Accepted | Ambiguous(at: Candidate)

  // ----- Required arguments -----

  /** Only trailing arguments have defaults, and exactly the first `n` have none. */
  ghost predicate TrailingDefaults(arguments: seq<Argument>, n: nat) {
    n <= |arguments| && forall i :: 0 <= i < |arguments| ==> (arguments[i].hasDefault <==> i >= n)
  }

  /** `get_required_argument_count`: the length of the prefix without defaults, or nothing (an error is
      raised) exactly when an argument without a default follows one with a default. */
  method RequiredArgumentCount(arguments: seq<Argument>) returns (count: Option<nat>)
    ensures count.Some? ==> TrailingDefaults(arguments, count.value)
    ensures count.None? <==>
      exists i, j :: 0 <= i < j < |arguments| && arguments[i].hasDefault && !arguments[j].hasDefault
  {
    var required: nat := 0;
    var seenDefault := false;
    for i := 0 to |arguments|
      invariant required <= i && (seenDefault <==> required < i)
      invariant forall j :: 0 <= j < i ==> (arguments[j].hasDefault <==> j >= required)
    {
      if arguments[i].hasDefault {
        seenDefault := true;
      } else {
        if seenDefault {
          assert arguments[required].hasDefault;
          return None;
        }
        required := required + 1;
      }
    }
    count := Some(required);
  }

  /** A method as the parser makes it: its required arguments are those before the first default. */
  ghost predicate Parsed(m: Method) {
    TrailingDefaults(m.arguments, m.required)
  }

  /** The end of `parse_member_statement`: a method, unless an argument without a default follows one with a
      default. */
  method MakeMethod(name: string, arguments: seq<Argument>) returns (m: Option<Method>)
    ensures m.Some? ==> Parsed(m.value) && m.value.name == name && m.value.arguments == arguments
    ensures m.None? <==> exists i, j :: 0 <= i < j < |arguments| && arguments[i].hasDefault && !arguments[j].hasDefault
  {
    var count := RequiredArgumentCount(arguments);
    m := if count.Some? then Some(Method(name, arguments, count.value)) else None;
  }

  // ----- Candidates -----

  /** The arities of method `i` below `stop`, in order. */
  function Arities(methods: seq<Method>, i: nat, stop: nat): seq<Candidate>
    requires i < |methods|
  {
    if stop <= methods[i].required then [] else Arities(methods, i, stop - 1) + [Candidate(i, stop - 1)]
  }

  /** The branches of the first `n` methods, in the order they are generated. */
  function Candidates(methods: seq<Method>, n: nat): seq<Candidate>
    requires n <= |methods|
  {
    if n == 0 then [] else Candidates(methods, n - 1) + Arities(methods, n - 1, |methods[n - 1].arguments| + 1)
  }

  function AllCandidates(methods: seq<Method>): seq<Candidate> {
    Candidates(methods, |methods|)
  }

  predicate IsCandidate(methods: seq<Method>, c: Candidate) {
    c.owner < |methods| && methods[c.owner].required <= c.arity <= |methods[c.owner].arguments|
  }

  /** `get_candidate_signature` */
  function Signature(methods: seq<Method>, c: Candidate): (s: seq<string>)
    requires IsCandidate(methods, c)
    ensures |s| == c.arity
  {
    seq(c.arity, i requires 0 <= i < c.arity => methods[c.owner].arguments[i].anyCastType)
  }

  lemma {:induction false} AritiesAre(methods: seq<Method>, i: nat, stop: nat)
    requires i < |methods| && stop <= |methods[i].arguments| + 1
    ensures forall c :: c in Arities(methods, i, stop) <==> c.owner == i && methods[i].required <= c.arity < stop
    ensures forall a, b :: 0 <= a < b < |Arities(methods, i, stop)| ==>
      Arities(methods, i, stop)[a] != Arities(methods, i, stop)[b]
  {
    if stop > methods[i].required {
      AritiesAre(methods, i, stop - 1);
    }
  }

  /** Every method yields one branch for each arity from its required arguments to all of them, and nothing else. */
  lemma {:induction false} CandidatesAre(methods: seq<Method>, n: nat)
    requires n <= |methods|
    ensures forall c :: c in Candidates(methods, n) <==> c.owner < n && IsCandidate(methods, c)
    ensures forall a, b :: 0 <= a < b < |Candidates(methods, n)| ==>
      Candidates(methods, n)[a] != Candidates(methods, n)[b]
  {
    if n > 0 {
      CandidatesAre(methods, n - 1);
      AritiesAre(methods, n - 1, |methods[n - 1].arguments| + 1);
      var p, q := Candidates(methods, n - 1), Arities(methods, n - 1, |methods[n - 1].arguments| + 1);
      forall a, b | 0 <= a < b < |p + q| ensures (p + q)[a] != (p + q)[b] {
        if a < |p| <= b {
          assert p[a] in p && q[b - |p|] in q;
        }
      }
    }
  }

  /** Methods in the order given, and each method's arities upwards. */
  ghost predicate Before(a: Candidate, b: Candidate) {
    a.owner < b.owner || (a.owner == b.owner && a.arity < b.arity)
  }

  lemma {:induction false} AritiesAscend(methods: seq<Method>, i: nat, stop: nat)
    requires i < |methods|
    ensures forall a, b :: 0 <= a < b < |Arities(methods, i, stop)| ==>
      Before(Arities(methods, i, stop)[a], Arities(methods, i, stop)[b])
    ensures forall a :: 0 <= a < |Arities(methods, i, stop)| ==>
      Arities(methods, i, stop)[a].owner == i && Arities(methods, i, stop)[a].arity < stop
  {
    if stop > methods[i].required {
      AritiesAscend(methods, i, stop - 1);
    }
  }

  /** The branches come in the order of the two nested loops. */
  lemma {:induction false} CandidatesInOrder(methods: seq<Method>, n: nat)
    requires n <= |methods|
    ensures forall a, b :: 0 <= a < b < |Candidates(methods, n)| ==>
      Before(Candidates(methods, n)[a], Candidates(methods, n)[b])
    ensures forall a :: 0 <= a < |Candidates(methods, n)| ==> Candidates(methods, n)[a].owner < n
  {
    if n > 0 {
      CandidatesInOrder(methods, n - 1);
      AritiesAscend(methods, n - 1, |methods[n - 1].arguments| + 1);
    }
  }

  /** The method may be called with its first `arity` arguments: the others all have defaults. */
  predicate Callable(m: Method, arity: nat) {
    arity <= |m.arguments| && forall i :: arity <= i < |m.arguments| ==> m.arguments[i].hasDefault
  }

  /** For parsed methods the branches are exactly the ways each method may be called. */
  lemma CandidatesAreCallable(methods: seq<Method>)
    requires forall i :: 0 <= i < |methods| ==> Parsed(methods[i])
    ensures forall c :: c in AllCandidates(methods) <==> c.owner < |methods| && Callable(methods[c.owner], c.arity)
  {
    CandidatesAre(methods, |methods|);
    forall i, arity: nat | 0 <= i < |methods|
      ensures Callable(methods[i], arity) <==> methods[i].required <= arity <= |methods[i].arguments|
    {
      ArityCallable(methods[i], arity);
    }
  }

  lemma ArityCallable(m: Method, arity: nat)
    requires Parsed(m)
    ensures Callable(m, arity) <==> m.required <= arity <= |m.arguments|
  {
    if arity < m.required {
      assert !m.arguments[arity].hasDefault;
    }
  }

  lemma ArityStart(methods: seq<Method>, i: nat, done: seq<Candidate>)
    requires i < |methods|
    ensures done + Arities(methods, i, methods[i].required) == done
  {
  }

  lemma ArityStep(methods: seq<Method>, i: nat, n: nat, done: seq<Candidate>)
    requires i < |methods| && methods[i].required <= n
    ensures done + Arities(methods, i, n + 1) == done + Arities(methods, i, n) + [Candidate(i, n)]
  {
  }

  /** The inner range is exhausted, or was empty from the start. */
  lemma ArityEnd(methods: seq<Method>, i: nat, n: nat)
    requires i < |methods| && n >= |methods[i].arguments| + 1
    requires n == |methods[i].arguments| + 1 || n == methods[i].required
    ensures Candidates(methods, i + 1) == Candidates(methods, i) + Arities(methods, i, n)
  {
  }

  /** The next branch has not been generated before. */
  lemma NextIsNew(methods: seq<Method>, i: nat, n: nat)
    requires i < |methods| && n <= |methods[i].arguments|
    ensures Candidate(i, n) !in Candidates(methods, i) + Arities(methods, i, n)
  {
    CandidatesAre(methods, i);
    AritiesAre(methods, i, n);
  }

  // ----- Ambiguity -----

  /** Two distinct branches have the same signature. */
  ghost predicate Clash(methods: seq<Method>) {
    exists a, b :: a != b && SameSignature(methods, a, b)
  }

  predicate SameSignature(methods: seq<Method>, a: Candidate, b: Candidate) {
    IsCandidate(methods, a) && IsCandidate(methods, b) && Signature(methods, a) == Signature(methods, b)
  }

  /** Two branches share a signature when they have as many arguments and the same type at each position. */
  lemma SameSignatureIff(methods: seq<Method>, a: Candidate, b: Candidate)
    requires IsCandidate(methods, a) && IsCandidate(methods, b)
    ensures SameSignature(methods, a, b) <==>
      a.arity == b.arity && forall i :: 0 <= i < a.arity ==>
        methods[a.owner].arguments[i].anyCastType == methods[b.owner].arguments[i].anyCastType
  {
    var s, t := Signature(methods, a), Signature(methods, b);
    forall i | 0 <= i < a.arity && a.arity == b.arity
      ensures s[i] == methods[a.owner].arguments[i].anyCastType && t[i] == methods[b.owner].arguments[i].anyCastType
    {
    }
  }

  ghost predicate NoClashAmong(methods: seq<Method>, cs: seq<Candidate>) {
    forall a, b :: a in cs && b in cs && SameSignature(methods, a, b) ==> a == b
  }

  /** The dictionary has exactly one entry for the signature of each branch seen. */
  ghost predicate Recorded(methods: seq<Method>, signatures: map<(nat, seq<string>), nat>, seen: seq<Candidate>) {
    && (forall c :: c in seen ==> IsCandidate(methods, c) && (c.arity, Signature(methods, c)) in signatures)
    && (forall k :: k in signatures ==>
      exists c :: c in seen && IsCandidate(methods, c) && k == (c.arity, Signature(methods, c)))
  }

  /** Branch `p` is the first one that repeats the signature of an earlier branch. */
  ghost predicate FirstRepeat(methods: seq<Method>, p: nat)
    requires p < |AllCandidates(methods)|
  {
    var cs := AllCandidates(methods);
    && (exists q :: 0 <= q < p && SameSignature(methods, cs[p], cs[q]))
    && forall a, b :: 0 <= a < b < p ==> !SameSignature(methods, cs[a], cs[b])
  }

  /** `validate_method_group` refuses a group exactly when two of its branches share a signature, at the first branch
      that repeats one. */
  method ValidateMethodGroup(methods: seq<Method>) returns (v: Verdict)
    ensures v.Accepted? <==> !Clash(methods)
    ensures v.Ambiguous? ==>
      exists p: nat :: p < |AllCandidates(methods)| && AllCandidates(methods)[p] == v.at && FirstRepeat(methods, p)
  {
    hide Arities, Candidates, Recorded, NoClashAmong, Signature;
    var signatures: map<(nat, seq<string>), nat> := map[];
    NothingRecorded(methods);
    var i: nat := 0;
    while i < |methods|
      invariant i <= |methods|
      invariant Recorded(methods, signatures, Candidates(methods, i)) && NoClashAmong(methods, Candidates(methods, i))
    {
      var n: nat := methods[i].required;
      ghost var done := Candidates(methods, i);
      ArityStart(methods, i, done);
      while n < |methods[i].arguments| + 1
        invariant methods[i].required <= n && (n <= |methods[i].arguments| + 1 || n == methods[i].required)
        invariant Recorded(methods, signatures, done + Arities(methods, i, n))
        invariant NoClashAmong(methods, done + Arities(methods, i, n))
      {
        var c := Candidate(i, n);
        var signature := Signature(methods, c);
        NextIsNew(methods, i, n);
        if (n, signature) in signatures {
          ghost var b := WhoRecorded(methods, signatures, done + Arities(methods, i, n), (n, signature));
          assert SameSignature(methods, c, b);
          RepeatsFirst(methods, i, n, b);
          return Ambiguous(c);
        }
        RecordOne(methods, signatures, done + Arities(methods, i, n), c, i);
        signatures := signatures[(n, signature) := i];
        ArityStep(methods, i, n, done);
        n := n + 1;
      }
      ArityEnd(methods, i, n);
      i := i + 1;
    }
    NoClashAtAll(methods);
    v := Accepted;
  }

  /** The branch at which a repeated signature is noticed is the first such branch. */
  lemma RepeatsFirst(methods: seq<Method>, i: nat, n: nat, b: Candidate)
    requires i < |methods| && methods[i].required <= n <= |methods[i].arguments|
    requires var seen := Candidates(methods, i) + Arities(methods, i, n);
      NoClashAmong(methods, seen) && b in seen
    requires SameSignature(methods, Candidate(i, n), b)
    ensures exists p: nat ::
      p < |AllCandidates(methods)| && AllCandidates(methods)[p] == Candidate(i, n) && FirstRepeat(methods, p)
  {
    hide SameSignature, Arities;
    var seen, cs := Candidates(methods, i) + Arities(methods, i, n), AllCandidates(methods);
    var p := |seen|;
    ArityStep(methods, i, n, Candidates(methods, i));
    CandidatesContinue(methods, i, n + 1);
    assert seen + [Candidate(i, n)] <= cs;
    assert cs[p] == (seen + [Candidate(i, n)])[p] && cs[..p] == seen;
    var q :| 0 <= q < p && seen[q] == b;
    assert cs[q] == cs[..p][q] == b;
    CandidatesInOrder(methods, |methods|);
    forall x, y | 0 <= x < y < p ensures !SameSignature(methods, cs[x], cs[y]) {
      assert cs[x] == cs[..p][x] && cs[y] == cs[..p][y];
      assert Before(cs[x], cs[y]);
    }
    assert FirstRepeat(methods, p);
  }

  lemma NothingRecorded(methods: seq<Method>)
    ensures Recorded(methods, map[], Candidates(methods, 0)) && NoClashAmong(methods, Candidates(methods, 0))
  {
  }

  lemma WhoRecorded(methods: seq<Method>, signatures: map<(nat, seq<string>), nat>, seen: seq<Candidate>,
                    k: (nat, seq<string>)) returns (b: Candidate)
    requires Recorded(methods, signatures, seen) && k in signatures
    ensures b in seen && IsCandidate(methods, b) && k == (b.arity, Signature(methods, b))
  {
    b :| b in seen && IsCandidate(methods, b) && k == (b.arity, Signature(methods, b));
  }

  lemma NoClashAtAll(methods: seq<Method>)
    requires NoClashAmong(methods, AllCandidates(methods))
    ensures !Clash(methods)
  {
    CandidatesAre(methods, |methods|);
  }

  lemma RecordOne(methods: seq<Method>, signatures: map<(nat, seq<string>), nat>, seen: seq<Candidate>,
                  c: Candidate, i: nat)
    requires IsCandidate(methods, c) && Recorded(methods, signatures, seen) && NoClashAmong(methods, seen)
    requires (c.arity, Signature(methods, c)) !in signatures
    ensures Recorded(methods, signatures[(c.arity, Signature(methods, c)) := i], seen + [c])
    ensures NoClashAmong(methods, seen + [c])
  {
  }

  // ----- The generated dispatch -----

  /** A generated branch is taken when the number of runtime arguments is its arity and each of them has the
      type the branch casts to. */
  predicate Matches(methods: seq<Method>, c: Candidate, runtime: seq<string>)
    requires IsCandidate(methods, c)
  {
    |runtime| == c.arity && forall i :: 0 <= i < c.arity ==> runtime[i] == methods[c.owner].arguments[i].anyCastType
  }

  lemma MatchesMeansSignature(methods: seq<Method>, c: Candidate, runtime: seq<string>)
    requires IsCandidate(methods, c)
    ensures Matches(methods, c, runtime) <==> runtime == Signature(methods, c)
  {
  }

  /** The first branch of the list that matches. */
  function FirstMatch(methods: seq<Method>, cs: seq<Candidate>, runtime: seq<string>): Option<Candidate>
    requires forall c :: c in cs ==> IsCandidate(methods, c)
  {
    if cs == [] then None
    else if Matches(methods, cs[0], runtime) then Some(cs[0])
    else FirstMatch(methods, cs[1..], runtime)
  }

  /** The nested loops that emit the branches, run as the emitted code runs them. */
  method Dispatch(methods: seq<Method>, runtime: seq<string>) returns (taken: Option<Candidate>)
    ensures forall c :: c in AllCandidates(methods) ==> IsCandidate(methods, c)
    ensures taken == FirstMatch(methods, AllCandidates(methods), runtime)
    ensures taken.None? ==> forall c :: c in AllCandidates(methods) ==> !Matches(methods, c, runtime)
    ensures taken.Some? ==>
      IsCandidate(methods, taken.value) && Matches(methods, taken.value, runtime) &&
      forall c :: c in AllCandidates(methods) && Before(c, taken.value) ==> !Matches(methods, c, runtime)
  {
    hide Arities, Candidates, NoneMatches;
    CandidatesAre(methods, |methods|);
    NoneMatchesYet(methods, runtime);
    var i: nat := 0;
    while i < |methods|
      invariant i <= |methods|
      invariant NoneMatches(methods, Candidates(methods, i), runtime)
    {
      var n: nat := methods[i].required;
      ghost var done := Candidates(methods, i);
      ArityStart(methods, i, done);
      while n < |methods[i].arguments| + 1
        invariant methods[i].required <= n && (n <= |methods[i].arguments| + 1 || n == methods[i].required)
        invariant NoneMatches(methods, done + Arities(methods, i, n), runtime)
      {
        var c := Candidate(i, n);
        ArityStep(methods, i, n, done);
        if Matches(methods, c, runtime) {
          CandidatesContinue(methods, i, n + 1);
          FirstMatchAfter(methods, AllCandidates(methods), done + Arities(methods, i, n), c, runtime);
          EarlierAreSeen(methods, i, n);
          NoneMatchesIs(methods, done + Arities(methods, i, n), runtime);
          return Some(c);
        }
        NoneMatchesNext(methods, done + Arities(methods, i, n), c, runtime);
        n := n + 1;
      }
      ArityEnd(methods, i, n);
      i := i + 1;
    }
    NoFirstMatch(methods, AllCandidates(methods), runtime);
    NoneMatchesIs(methods, AllCandidates(methods), runtime);
    taken := None;
  }

  /** Every branch before the present one has been emitted before it. */
  lemma EarlierAreSeen(methods: seq<Method>, i: nat, n: nat)
    requires i < |methods| && methods[i].required <= n <= |methods[i].arguments|
    ensures forall c :: c in AllCandidates(methods) && Before(c, Candidate(i, n)) ==>
      c in Candidates(methods, i) + Arities(methods, i, n)
  {
    CandidatesAre(methods, |methods|);
    CandidatesAre(methods, i);
    AritiesAre(methods, i, n);
  }

  lemma NoneMatchesYet(methods: seq<Method>, runtime: seq<string>)
    ensures NoneMatches(methods, Candidates(methods, 0), runtime)
  {
  }

  lemma NoneMatchesIs(methods: seq<Method>, cs: seq<Candidate>, runtime: seq<string>)
    requires NoneMatches(methods, cs, runtime)
    ensures forall c :: c in cs ==> IsCandidate(methods, c) && !Matches(methods, c, runtime)
  {
  }

  lemma NoneMatchesNext(methods: seq<Method>, seen: seq<Candidate>, c: Candidate, runtime: seq<string>)
    requires NoneMatches(methods, seen, runtime) && IsCandidate(methods, c) && !Matches(methods, c, runtime)
    ensures NoneMatches(methods, seen + [c], runtime)
  {
  }

  lemma FirstMatchAfter(methods: seq<Method>, cs: seq<Candidate>, seen: seq<Candidate>, c: Candidate,
                        runtime: seq<string>)
    requires forall d :: d in cs ==> IsCandidate(methods, d)
    requires seen + [c] <= cs && NoneMatches(methods, seen, runtime) && IsCandidate(methods, c)
      && Matches(methods, c, runtime)
    ensures FirstMatch(methods, cs, runtime) == Some(c)
  {
    assert cs[|seen|] == (seen + [c])[|seen|];
    forall q | 0 <= q < |seen| ensures !Matches(methods, cs[q], runtime) {
      assert cs[q] == (seen + [c])[q] == seen[q] && seen[q] in seen;
    }
    FirstMatchIs(methods, cs, runtime, |seen|);
  }

  ghost predicate NoneMatches(methods: seq<Method>, cs: seq<Candidate>, runtime: seq<string>) {
    forall c :: c in cs ==> IsCandidate(methods, c) && !Matches(methods, c, runtime)
  }

  lemma {:induction false} AritiesContinue(methods: seq<Method>, i: nat, n: nat, stop: nat)
    requires i < |methods| && n <= stop
    ensures Arities(methods, i, n) <= Arities(methods, i, stop)
  {
    if n < stop {
      AritiesContinue(methods, i, n, stop - 1);
    }
  }

  lemma {:induction false} CandidatesGrow(methods: seq<Method>, i: nat, n: nat)
    requires i <= n <= |methods|
    ensures Candidates(methods, i) <= Candidates(methods, n)
  {
    if i < n {
      CandidatesGrow(methods, i, n - 1);
    }
  }

  lemma CandidatesContinue(methods: seq<Method>, i: nat, n: nat)
    requires i < |methods| && n <= |methods[i].arguments| + 1
    ensures Candidates(methods, i) + Arities(methods, i, n) <= AllCandidates(methods)
  {
    AritiesContinue(methods, i, n, |methods[i].arguments| + 1);
    CandidatesGrow(methods, i + 1, |methods|);
  }

  lemma {:induction false} FirstMatchIs(methods: seq<Method>, cs: seq<Candidate>, runtime: seq<string>, p: nat)
    requires forall c :: c in cs ==> IsCandidate(methods, c)
    requires p < |cs| && Matches(methods, cs[p], runtime)
    requires forall q :: 0 <= q < p ==> !Matches(methods, cs[q], runtime)
    ensures FirstMatch(methods, cs, runtime) == Some(cs[p])
  {
    if p > 0 {
      FirstMatchIs(methods, cs[1..], runtime, p - 1);
    }
  }

  lemma {:induction false} NoFirstMatch(methods: seq<Method>, cs: seq<Candidate>, runtime: seq<string>)
    requires NoneMatches(methods, cs, runtime)
    ensures FirstMatch(methods, cs, runtime) == None
  {
    if cs != [] {
      NoFirstMatch(methods, cs[1..], runtime);
    }
  }

  predicate BothMatch(methods: seq<Method>, a: Candidate, b: Candidate, runtime: seq<string>) {
    IsCandidate(methods, a) && IsCandidate(methods, b) && Matches(methods, a, runtime) && Matches(methods, b, runtime)
  }

  /** A group is accepted if and only if no vector of runtime arguments matches two of its branches. */
  lemma UnambiguousIffOneMatch(methods: seq<Method>)
    ensures !Clash(methods) <==>
      forall runtime: seq<string>, a, b :: BothMatch(methods, a, b, runtime) ==> a == b
  {
    if Clash(methods) {
      var a, b :| a != b && SameSignature(methods, a, b);
      MatchesMeansSignature(methods, a, Signature(methods, a));
      MatchesMeansSignature(methods, b, Signature(methods, a));
      assert BothMatch(methods, a, b, Signature(methods, a));
    } else {
      forall runtime: seq<string>, a, b | BothMatch(methods, a, b, runtime) ensures a == b {
        MatchesMeansSignature(methods, a, runtime);
        MatchesMeansSignature(methods, b, runtime);
        assert SameSignature(methods, a, b);
      }
    }
  }

  lemma {:induction false} FirstMatchFinds(methods: seq<Method>, cs: seq<Candidate>, runtime: seq<string>)
    requires forall c :: c in cs ==> IsCandidate(methods, c)
    ensures var r := FirstMatch(methods, cs, runtime);
      && (r.Some? ==> r.value in cs && Matches(methods, r.value, runtime))
      && (r.None? ==> forall c :: c in cs ==> !Matches(methods, c, runtime))
  {
    if cs != [] {
      FirstMatchFinds(methods, cs[1..], runtime);
    }
  }

  /** In an accepted group the order of the branches is irrelevant: any list with the same branches
      dispatches every runtime argument vector to the same branch. */
  lemma OrderIsIrrelevant(methods: seq<Method>, cs: seq<Candidate>, ds: seq<Candidate>, runtime: seq<string>)
    requires !Clash(methods)
    requires forall c :: c in cs ==> IsCandidate(methods, c)
    requires forall c :: c in cs <==> c in ds
    ensures FirstMatch(methods, cs, runtime) == FirstMatch(methods, ds, runtime)
  {
    FirstMatchFinds(methods, cs, runtime);
    FirstMatchFinds(methods, ds, runtime);
    var r, q := FirstMatch(methods, cs, runtime), FirstMatch(methods, ds, runtime);
    if r.Some? && q.Some? {
      MatchesMeansSignature(methods, r.value, runtime);
      MatchesMeansSignature(methods, q.value, runtime);
      assert SameSignature(methods, r.value, q.value);
    }
  }
}
