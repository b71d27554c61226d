/** The `delete-all` command (main.go `DeleteAllCmd.Execute`): every entity
    of the chosen kinds in the chosen namespaces is deleted by key, at most
    500 keys per `DeleteMulti`. The datastore is a parameter that answers
    keys-only queries; the command gives up at the first failing call. */
module DeleteAll {
  import opened Wrappers
  import opened Seqs
  import Strings
  import opened Values
  import opened Client

  /** Keys per `DeleteMulti` call. */
  const BatchSize: nat := 500

  /** The kinds of the metadata queries. */
  const NamespaceKind: string := "__namespace__"
  const KindKind: string := "__kind__"

  /** The datastore's key index: the keys that a keys-only query for a kind
      in a namespace returns, in query order. The namespaces are the keys of
      `__namespace__` in the default namespace `""`, the kinds of a namespace
      the keys of `__kind__` in it. */
  type Store = (string, string) -> seq<Key>

  /** The client calls the command makes. */
  datatype Op =
    | ListNamespaces                   // GetAll on __namespace__
    | ListKinds(ns: string)            // GetAll on __kind__ in ns
    | ListKeys(ns: string, kind: string) // GetAll, keys only, of a kind
    | Delete(keys: seq<Key>)           // DeleteMulti

  /** The error the command returns when `op` fails with `e`: the metadata
      helpers wrap it, the other calls hand it on as it is. */
  function Message(op: Op, e: string): string
  {
    match op
    case ListNamespaces => "Unable to load list of namespaces: client.GetAll: " + e
    case ListKinds(_) => "client.GetAll: " + e
    case _ => e
  }

  /* ---------- Issuing calls until one fails ---------- */

  /** What came of a run of calls: the calls made, and the error if the last
      of them failed. */
  datatype Outcome = Outcome(issued: seq<Op>, err: Option<string>)

  /** The calls `plan`, numbered from `base` on, issued one after the other
      until the `failure` call: that one is still made, nothing after it. */
  function IssueFrom(plan: seq<Op>, base: nat, failure: Option<Failure>): Outcome
  {
    if failure.Some? && base <= failure.value.at < base + |plan| then
      var k := failure.value.at - base;
      Outcome(plan[..k + 1], Some(Message(plan[k], failure.value.error)))
    else
      Outcome(plan, None)
  }

  /** Without a failure among them all calls are made; with one, exactly the
      calls up to and including it, and its error is reported. */
  lemma IssueFromMeaning(plan: seq<Op>, base: nat, failure: Option<Failure>)
    ensures var o := IssueFrom(plan, base, failure);
            && (o.err.None? <==> failure.None? || failure.value.at < base || failure.value.at >= base + |plan|)
            && (o.err.None? ==> o.issued == plan)
            && (o.err.Some? ==>
                  && base <= failure.value.at < base + |plan|
                  && |o.issued| == failure.value.at - base + 1
                  && o.issued == plan[..|o.issued|]
                  && o.err.value == Message(plan[failure.value.at - base], failure.value.error))
  {
  }

  /** Issuing two runs of calls is issuing the first, and the second only if
      the first went through. */
  lemma IssueAppend(p: seq<Op>, q: seq<Op>, base: nat, failure: Option<Failure>)
    ensures IssueFrom(p + q, base, failure)
         == if IssueFrom(p, base, failure).err.Some? then IssueFrom(p, base, failure)
            else Outcome(p + IssueFrom(q, base + |p|, failure).issued,
                         IssueFrom(q, base + |p|, failure).err)
  {
    if failure.Some? && base <= failure.value.at < base + |p| + |q| {
      var k := failure.value.at - base;
      if k < |p| {
        assert (p + q)[..k + 1] == p[..k + 1];
      } else {
        assert (p + q)[..k + 1] == p + q[..k - |p| + 1];
      }
    }
  }

  /* ---------- The helpers ---------- */

  /** `metadataNamespaces` after its query: the name of every key, in key
      order. */
  function Names(keys: seq<Key>): (names: seq<string>)
    ensures |names| == |keys|
    ensures forall i :: 0 <= i < |keys| ==> names[i] == keys[i].name
  {
    if |keys| == 0 then []
    else Names(keys[..|keys| - 1]) + [keys[|keys| - 1].name]
  }

  /** Datastore-reserved kinds such as `__kind__` and `__Stat_Total__`. */
  predicate SystemKind(name: string)
  {
    Strings.HasPrefix(name, "__") && Strings.HasSuffix(name, "__")
  }

  /** `metadataKinds` after its query: the key names, system kinds left out. */
  function UserKinds(keys: seq<Key>): (kinds: seq<string>)
    ensures |kinds| <= |keys|
  {
    if |keys| == 0 then []
    else
      var init := UserKinds(keys[..|keys| - 1]);
      var k := keys[|keys| - 1];
      if SystemKind(k.name) then init else init + [k.name]
  }

  /** A name is kept exactly when some key has it and it is not a system
      kind. */
  lemma {:induction false} UserKindsMembers(keys: seq<Key>, n: string)
    ensures n in UserKinds(keys) <==> (exists i :: 0 <= i < |keys| && keys[i].name == n) && !SystemKind(n)
    decreases |keys|
  {
    if |keys| > 0 {
      var init := keys[..|keys| - 1];
      UserKindsMembers(init, n);
      assert forall i :: 0 <= i < |init| ==> init[i] == keys[i];
      assert keys == init + [keys[|keys| - 1]];
    }
  }

  /** The filter keeps the order of the names it keeps: filtering a
      concatenation filters each part. */
  lemma {:induction false} UserKindsAppend(a: seq<Key>, b: seq<Key>)
    ensures UserKinds(a + b) == UserKinds(a) + UserKinds(b)
    decreases |b|
  {
    if |b| == 0 {
      assert a + b == a;
    } else {
      var ab := a + b;
      assert ab[..|ab| - 1] == a + b[..|b| - 1];
      assert ab[|ab| - 1] == b[|b| - 1];
      UserKindsAppend(a, b[..|b| - 1]);
    }
  }

  /** Go's `copy(dst, src)`: the first `min(len(dst), len(src))` elements of
      `dst` are overwritten; `dst` never grows. */
  function Copy<T>(dst: seq<T>, src: seq<T>): (r: seq<T>)
    ensures |r| == |dst|
    ensures forall i :: 0 <= i < |r| ==> r[i] == if i < |src| then src[i] else dst[i]
  {
    var n := Min(|dst|, |src|);
    src[..n] + dst[n..]
  }

  /** The prompt's choices as written: the namespaces are copied into a nil
      slice, then "all" is appended. */
  function Choices(discovered: seq<string>): seq<string>
  {
    Copy([], discovered) + ["all"]
  }

  /** The choices that were evidently meant: every namespace, then "all". */
  function ChoicesCorrected(discovered: seq<string>): seq<string>
  {
    discovered + ["all"]
  }

  /** The prompt's test of a typed line: it matches one of the choices when
      letter case is ignored. */
  predicate Accepts(choices: seq<string>, line: string)
  {
    exists i :: 0 <= i < |choices| && Strings.EqualFold(choices[i], line)
  }

  /** `prompter.Choose`, given the lines the user types in turn. An empty
      line, or the end of the input, gives the default. A line that matches
      a choice is returned as it was typed, in the user's letter case. Any
      other line is rejected and the prompt asks again. */
  function Choose(choices: seq<string>, default: string, typed: seq<string>): (c: string)
    ensures c == default || (c in typed && Accepts(choices, c))
    decreases |typed|
  {
    if |typed| == 0 || typed[0] == "" then default
    else if Accepts(choices, typed[0]) then typed[0]
    else Choose(choices, default, typed[1..])
  }

  /** The answer taken is decided by the first line that is empty or
      accepted, every line before it having been rejected: that line as
      typed, or the default when it is empty or there is no such line. */
  lemma {:induction false} ChooseFirst(choices: seq<string>, default: string, typed: seq<string>, j: nat)
    requires j <= |typed|
    requires forall i :: 0 <= i < j ==> typed[i] != "" && !Accepts(choices, typed[i])
    requires j < |typed| ==> typed[j] == "" || Accepts(choices, typed[j])
    ensures Choose(choices, default, typed) == if j < |typed| && typed[j] != "" then typed[j] else default
    decreases j
  {
    if j > 0 {
      assert typed[0] != "" && !Accepts(choices, typed[0]);
      ChooseFirst(choices, default, typed[1..], j - 1);
    }
  }

  /** The namespaces the command works on when no namespace is given:
      with none discovered it is the one empty name `strings.Split` left.
      Only the exact answer "all" selects every namespace. */
  function SelectNamespaces(discovered: seq<string>, choices: seq<string>, typed: seq<string>): seq<string>
  {
    if |discovered| == 0 then [""]
    else
      var choice := Choose(choices, "all", typed);
      if choice == "all" then discovered else [choice]
  }

  /** As written, "all" is the only choice offered. So every discovered
      namespace is cleaned, unless the user types "all" in another letter
      case: the prompt accepts that, and the command then cleans the one
      namespace named as typed. */
  lemma OnlyAllOffered(discovered: seq<string>, typed: seq<string>)
    requires |discovered| > 0
    ensures Choices(discovered) == ["all"]
    ensures var r := SelectNamespaces(discovered, Choices(discovered), typed);
            r == discovered || (|r| == 1 && r[0] != "all" && Strings.EqualFold(r[0], "all"))
  {
    assert Copy([], discovered) == [];
    var c := Choose(["all"], "all", typed);
    if c != "all" {
      assert Accepts(["all"], c);
    }
  }

  /** Typing a namespace's name is refused, and so is every other line but
      "all" in some letter case; "ALL" is accepted and cleans a namespace
      called "ALL". */
  lemma PromptExamples()
    ensures SelectNamespaces(["a", "b"], Choices(["a", "b"]), ["a"]) == ["a", "b"]
    ensures SelectNamespaces(["a", "b"], Choices(["a", "b"]), ["a", ""]) == ["a", "b"]
    ensures SelectNamespaces(["a", "b"], Choices(["a", "b"]), ["ALL"]) == ["ALL"]
  {
    var choices := Choices(["a", "b"]);
    assert Copy([], ["a", "b"]) == [];
    assert choices == ["all"];
    assert !Strings.EqualFold("all", "a");
    assert !Accepts(choices, "a");
    assert ["a"][1..] == [];
    assert ["a", ""][1..] == [""];
    assert Strings.EqualFold(choices[0], "ALL");
    assert Accepts(choices, "ALL");
  }

  lemma EqualFoldSelf(s: string)
    ensures Strings.EqualFold(s, s)
  {
  }

  /** With the intended choices, answering a namespace's name cleans exactly
      that namespace, and answering "all", answering nothing or typing a line
      that matches no choice up to the end of the input cleans all of them. */
  lemma CorrectedChoice(discovered: seq<string>, answer: string)
    requires |discovered| > 0
    ensures answer in discovered && answer != "" && answer != "all" ==>
              SelectNamespaces(discovered, ChoicesCorrected(discovered), [answer]) == [answer]
    ensures answer == "all" || answer == "" || !Accepts(ChoicesCorrected(discovered), answer) ==>
              SelectNamespaces(discovered, ChoicesCorrected(discovered), [answer]) == discovered
  {
    var choices := ChoicesCorrected(discovered);
    EqualFoldSelf(answer);
    if answer in discovered {
      var i :| 0 <= i < |discovered| && discovered[i] == answer;
      assert choices[i] == answer;
    }
    if answer == "all" {
      assert choices[|choices| - 1] == "all";
    }
    assert [answer][1..] == [];
  }

  /** A flag value, split on commas; the empty flag means the discovered
      list. */
  function Targets(flag: string, discovered: seq<string>): seq<string>
  {
    if flag == "" then discovered else Strings.Split(flag, ',')
  }

  /** The empty flag selects the discovered list; any other flag selects
      its comma-free pieces, which join back to the flag. */
  lemma TargetsOfFlag(flag: string, discovered: seq<string>)
    ensures flag == "" ==> Targets(flag, discovered) == discovered
    ensures flag != "" ==>
              && Strings.JoinWith(Targets(flag, discovered), ",") == flag
              && forall i :: 0 <= i < |Targets(flag, discovered)| ==> ',' !in Targets(flag, discovered)[i]
  {
    Strings.JoinSplit(flag, ',');
    Strings.SplitPieces(flag, ',');
  }

  /* ---------- The calls the command plans ---------- */

  /** One `DeleteMulti` per batch. */
  function Deletes(batches: seq<seq<Key>>): (ops: seq<Op>)
    ensures |ops| == |batches|
  {
    if |batches| == 0 then []
    else Deletes(batches[..|batches| - 1]) + [Delete(batches[|batches| - 1])]
  }

  /** The calls for each item in turn. */
  function Concat<T>(items: seq<T>, plan: T -> seq<Op>): seq<Op>
  {
    if |items| == 0 then []
    else Concat(items[..|items| - 1], plan) + plan(items[|items| - 1])
  }

  lemma {:induction false} ConcatAppend<T>(a: seq<T>, b: seq<T>, plan: T -> seq<Op>)
    ensures Concat(a + b, plan) == Concat(a, plan) + Concat(b, plan)
    decreases |b|
  {
    if |b| == 0 {
      assert a + b == a;
    } else {
      var ab := a + b;
      assert ab[..|ab| - 1] == a + b[..|b| - 1];
      assert ab[|ab| - 1] == b[|b| - 1];
      ConcatAppend(a, b[..|b| - 1], plan);
    }
  }

  /** The calls for the first `j + 1` items extend those for the first
      `j`, and the calls for all items extend both. */
  lemma {:induction false} ConcatSplit<T>(items: seq<T>, j: nat, plan: T -> seq<Op>)
    requires j < |items|
    ensures Concat(items[..j + 1], plan) == Concat(items[..j], plan) + plan(items[j])
    ensures Concat(items, plan) == Concat(items[..j], plan) + plan(items[j]) + Concat(items[j + 1..], plan)
  {
    ConcatPrefix(items, j, plan);
    ConcatAround(items, j + 1, plan);
  }

  lemma ConcatPrefix<T>(items: seq<T>, j: nat, plan: T -> seq<Op>)
    requires j < |items|
    ensures Concat(items[..j + 1], plan) == Concat(items[..j], plan) + plan(items[j])
  {
    assert items[..j + 1][..j] == items[..j];
  }

  lemma {:induction false} ConcatAround<T>(items: seq<T>, k: nat, plan: T -> seq<Op>)
    requires k <= |items|
    ensures Concat(items, plan) == Concat(items[..k], plan) + Concat(items[k..], plan)
  {
    assert items[..k] + items[k..] == items;
    ConcatAppend(items[..k], items[k..], plan);
  }

  /** The calls for one kind: list its keys, then delete them batch by batch. */
  function KindPlan(ns: string, kind: string, store: Store): seq<Op>
  {
    [ListKeys(ns, kind)] + Deletes(Chunks(store(ns, kind), BatchSize))
  }

  function KindPlanOf(ns: string, store: Store): string -> seq<Op>
  {
    kind => KindPlan(ns, kind, store)
  }

  /** The kinds cleaned in `ns`. */
  function KindsOf(ns: string, kindsFlag: string, store: Store): seq<string>
  {
    Targets(kindsFlag, UserKinds(store(ns, KindKind)))
  }

  /** The metadata query for the kinds of `ns`, made only when no kind is given. */
  function KindDiscovery(ns: string, kindsFlag: string): seq<Op>
  {
    if kindsFlag == "" then [ListKinds(ns)] else []
  }

  /** The calls for one namespace: list its kinds unless they are given,
      then clean each kind. */
  function NamespacePlan(ns: string, kindsFlag: string, store: Store): seq<Op>
  {
    KindDiscovery(ns, kindsFlag)
    + Concat(KindsOf(ns, kindsFlag, store), KindPlanOf(ns, store))
  }

  function NamespacePlanOf(kindsFlag: string, store: Store): string -> seq<Op>
  {
    ns => NamespacePlan(ns, kindsFlag, store)
  }

  /** The namespaces cleaned. */
  function NamespacesOf(nsFlag: string, store: Store, typed: seq<string>): seq<string>
  {
    var discovered := Names(store("", NamespaceKind));
    Targets(nsFlag, SelectNamespaces(discovered, Choices(discovered), typed))
  }

  /** The metadata query for namespaces, made only when no namespace is given. */
  function Discovery(nsFlag: string): seq<Op>
  {
    if nsFlag == "" then [ListNamespaces] else []
  }

  /** Every call of a run that fails nowhere. */
  function Plan(nsFlag: string, kindsFlag: string, store: Store, typed: seq<string>): seq<Op>
  {
    Discovery(nsFlag)
    + Concat(NamespacesOf(nsFlag, store, typed), NamespacePlanOf(kindsFlag, store))
  }

  /** The keys that the `Delete` calls among `ops` remove, in call order. */
  function DeletedKeys(ops: seq<Op>): seq<Key>
  {
    if |ops| == 0 then []
    else DeletedKeys(ops[..|ops| - 1]) + (if ops[|ops| - 1].Delete? then ops[|ops| - 1].keys else [])
  }

  lemma {:induction false} DeletedKeysAppend(a: seq<Op>, b: seq<Op>)
    ensures DeletedKeys(a + b) == DeletedKeys(a) + DeletedKeys(b)
    decreases |b|
  {
    if |b| == 0 {
      assert a + b == a;
    } else {
      var ab := a + b;
      assert ab[..|ab| - 1] == a + b[..|b| - 1];
      assert ab[|ab| - 1] == b[|b| - 1];
      DeletedKeysAppend(a, b[..|b| - 1]);
    }
  }

  /** One `Delete` per batch, in batch order, together removing the batches
      glued together. */
  lemma {:induction false} DeletesOfBatches(batches: seq<seq<Key>>)
    ensures forall i :: 0 <= i < |batches| ==> Deletes(batches)[i] == Delete(batches[i])
    ensures DeletedKeys(Deletes(batches)) == Flatten(batches)
    decreases |batches|
  {
    if |batches| > 0 {
      var init := batches[..|batches| - 1];
      var last := batches[|batches| - 1];
      DeletesOfBatches(init);
      assert batches == init + [last];
      FlattenAppend(init, [last]);
      assert Flatten([last]) == last + Flatten([last][1..]);
      assert Deletes(batches) == Deletes(init) + [Delete(last)];
      assert Deletes(batches)[..|batches| - 1] == Deletes(init);
    }
  }

  /** The batches of a kind's keys: `ceil(n / 500)` `DeleteMulti` calls,
      each with 1 to 500 keys and all but the last with exactly 500, which
      together remove every key once, in query order. */
  lemma BatchCalls(keys: seq<Key>)
    ensures var ops := Deletes(Chunks(keys, BatchSize));
            && |ops| == CeilDiv(|keys|, BatchSize)
            && (forall i :: 0 <= i < |ops| ==> ops[i].Delete? && 0 < |ops[i].keys| <= BatchSize)
            && (forall i :: 0 <= i < |ops| - 1 ==> |ops[i].keys| == BatchSize)
            && DeletedKeys(ops) == keys
  {
    ChunksShape(keys, BatchSize);
    DeletesOfBatches(Chunks(keys, BatchSize));
  }

  /** The calls for one kind: a `GetAll` of its keys first, and the keys
      removed are exactly the keys it returned. */
  lemma KindCalls(ns: string, kind: string, store: Store)
    ensures KindPlan(ns, kind, store)[0] == ListKeys(ns, kind)
    ensures DeletedKeys(KindPlan(ns, kind, store)) == store(ns, kind)
  {
    var ops := Deletes(Chunks(store(ns, kind), BatchSize));
    BatchCalls(store(ns, kind));
    DeletedKeysAppend([ListKeys(ns, kind)], ops);
    assert DeletedKeys([ListKeys(ns, kind)]) == [] by {
      assert [ListKeys(ns, kind)][..0] == [];
    }
  }

  /* ---------- The command ---------- */

  /** A run of calls that went through, followed by the calls of one more
      step: together they are issued as one run; when the step failed, the
      calls after it are never issued. */
  lemma IssueStep(done: seq<Op>, next: seq<Op>, rest: seq<Op>, base: nat, failure: Option<Failure>,
                  issued: seq<Op>, more: seq<Op>, e: Option<string>)
    requires Outcome(issued, None) == IssueFrom(done, base, failure)
    requires Outcome(more, e) == IssueFrom(next, base + |issued|, failure)
    ensures Outcome(issued + more, e) == IssueFrom(done + next, base, failure)
    ensures e.Some? ==> Outcome(issued + more, e) == IssueFrom(done + next + rest, base, failure)
  {
    IssueAppend(done, next, base, failure);
    IssueAppend(done + next, rest, base, failure);
  }

  /** The batches up to the one at `m * 500` are those before it and it; the
      batches after it, if any, start on a whole batch. */
  lemma BatchesSplit(keys: seq<Key>, m: nat, b: nat)
    requires 0 < b <= BatchSize && m * BatchSize + b <= |keys|
    requires b == BatchSize || m * BatchSize + b == |keys|
    ensures var i := m * BatchSize;
            && Deletes(Chunks(keys[..i + b], BatchSize))
               == Deletes(Chunks(keys[..i], BatchSize)) + [Delete(keys[i..i + b])]
            && Deletes(Chunks(keys, BatchSize))
               == Deletes(Chunks(keys[..i + b], BatchSize)) + Deletes(Chunks(keys[i + b..], BatchSize))
  {
    var i := m * BatchSize;
    ChunksSnoc(keys, BatchSize, m, b);
    var pages := Chunks(keys[..i], BatchSize);
    assert (pages + [keys[i..i + b]])[..|pages|] == pages;
    if i + b == |keys| {
      assert keys[..i + b] == keys;
      assert keys[i + b..] == [];
    } else {
      assert keys[..i + b] + keys[i + b..] == keys;
      assert i + b == (m + 1) * BatchSize;
      ChunksAppend(keys[..i + b], keys[i + b..], BatchSize, m + 1);
      DeletesAppend(Chunks(keys[..i + b], BatchSize), Chunks(keys[i + b..], BatchSize));
    }
  }

  /** One round of the batch loop: the batch of `b` keys at `m * 500` is
      issued after those before it, and a failure there ends the whole loop. */
  lemma BatchStep(keys: seq<Key>, m: nat, b: nat, base: nat, failure: Option<Failure>,
                  issued: seq<Op>, e: Option<string>)
    requires 0 < b <= BatchSize && m * BatchSize + b <= |keys|
    requires b == BatchSize || m * BatchSize + b == |keys|
    requires Outcome(issued, None) == IssueFrom(Deletes(Chunks(keys[..m * BatchSize], BatchSize)), base, failure)
    requires e == if failure.Some? && failure.value.at == base + |issued| then Some(failure.value.error) else None
    ensures var i := m * BatchSize;
            && Outcome(issued + [Delete(keys[i..i + b])], e)
               == IssueFrom(Deletes(Chunks(keys[..i + b], BatchSize)), base, failure)
            && (e.Some? ==> Outcome(issued + [Delete(keys[i..i + b])], e)
                            == IssueFrom(Deletes(Chunks(keys, BatchSize)), base, failure))
  {
    var i := m * BatchSize;
    var next := [Delete(keys[i..i + b])];
    var before := Deletes(Chunks(keys[..i], BatchSize));
    var after := Deletes(Chunks(keys[i + b..], BatchSize));
    DeleteIssued(keys[i..i + b], base + |issued|, failure);
    BatchesSplit(keys, m, b);
    IssueStep(before, next, after, base, failure, issued, next, e);
    assert Deletes(Chunks(keys, BatchSize)) == before + next + after;
  }

  /** A single `DeleteMulti` is made, and its error is its own. */
  lemma DeleteIssued(keys: seq<Key>, base: nat, failure: Option<Failure>)
    ensures IssueFrom([Delete(keys)], base, failure)
         == Outcome([Delete(keys)], if failure.Some? && failure.value.at == base then Some(failure.value.error) else None)
  {
  }

  lemma {:induction false} DeletesAppend(a: seq<seq<Key>>, b: seq<seq<Key>>)
    ensures Deletes(a + b) == Deletes(a) + Deletes(b)
    decreases |b|
  {
    if |b| == 0 {
      assert a + b == a;
    } else {
      var ab := a + b;
      assert ab[..|ab| - 1] == a + b[..|b| - 1];
      assert ab[|ab| - 1] == b[|b| - 1];
      DeletesAppend(a, b[..|b| - 1]);
    }
  }

  /** The loop `for i := 0; i < len(keys); i += 500` over the keys of one
      kind: each batch `keys[i:min(i+500, len(keys))]` goes to `DeleteMulti`
      and the first failure ends the command. */
  method DeleteBatches(keys: seq<Key>, failure: Option<Failure>, base: nat)
      returns (issued: seq<Op>, err: Option<string>)
    ensures Outcome(issued, err) == IssueFrom(Deletes(Chunks(keys, BatchSize)), base, failure)
  {
    issued := [];
    err := None;
    var i := 0;
    ghost var m: nat := 0;
    while i < |keys|
      invariant i == m * BatchSize
      invariant Outcome(issued, None) == IssueFrom(Deletes(Chunks(keys[..Min(i, |keys|)], BatchSize)), base, failure)
      decreases |keys| - i
    {
      var batch := keys[i..Min(i + BatchSize, |keys|)];
      var e: Option<string> := None;
      if failure.Some? && failure.value.at == base + |issued| {
        e := Some(failure.value.error);
      }
      assert keys[..Min(i, |keys|)] == keys[..i];
      BatchStep(keys, m, |batch|, base, failure, issued, e);
      issued := issued + [Delete(batch)];
      if e.Some? {
        return issued, e;
      }
      i := i + BatchSize;
      m := m + 1;
    }
    assert keys[..Min(i, |keys|)] == keys;
  }

  /** One kind of one namespace: `GetAll` of its keys, then the batches. */
  method DeleteKind(ns: string, kind: string, store: Store, failure: Option<Failure>, base: nat)
      returns (issued: seq<Op>, err: Option<string>)
    ensures Outcome(issued, err) == IssueFrom(KindPlan(ns, kind, store), base, failure)
  {
    var keys := store(ns, kind);
    IssueAppend([ListKeys(ns, kind)], Deletes(Chunks(keys, BatchSize)), base, failure);
    issued := [ListKeys(ns, kind)];
    if failure.Some? && failure.value.at == base {
      return issued, Some(failure.value.error);
    }
    var more;
    more, err := DeleteBatches(keys, failure, base + 1);
    issued := issued + more;
  }

  /** The loop over the kinds of one namespace: each cleaned in turn. */
  method DeleteKinds(ns: string, kinds: seq<string>, store: Store, failure: Option<Failure>, base: nat)
      returns (issued: seq<Op>, err: Option<string>)
    ensures Outcome(issued, err) == IssueFrom(Concat(kinds, KindPlanOf(ns, store)), base, failure)
  {
    issued := [];
    err := None;
    ghost var plan := KindPlanOf(ns, store);
    var j := 0;
    while j < |kinds|
      invariant j <= |kinds|
      invariant Outcome(issued, None) == IssueFrom(Concat(kinds[..j], plan), base, failure)
    {
      var more, e := DeleteKind(ns, kinds[j], store, failure, base + |issued|);
      ConcatSplit(kinds, j, plan);
      IssueStep(Concat(kinds[..j], plan), plan(kinds[j]), Concat(kinds[j + 1..], plan),
                base, failure, issued, more, e);
      issued := issued + more;
      if e.Some? {
        return issued, e;
      }
      j := j + 1;
    }
    assert kinds[..j] == kinds;
  }

  /** The kinds to clean in `ns`: those of the flag, or, when the flag is
      empty, the user kinds `metadataKinds` finds. A failing metadata query
      ends the command. */
  method SelectKinds(ns: string, kindsFlag: string, store: Store, failure: Option<Failure>, base: nat)
      returns (issued: seq<Op>, kinds: seq<string>, err: Option<string>)
    ensures Outcome(issued, err) == IssueFrom(KindDiscovery(ns, kindsFlag), base, failure)
    ensures err.None? ==> kinds == KindsOf(ns, kindsFlag, store)
  {
    issued := [];
    err := None;
    kinds := Strings.Split(kindsFlag, ',');
    if |kinds| == 0 || kindsFlag == "" {
      issued := [ListKinds(ns)];
      if failure.Some? && failure.value.at == base {
        return issued, kinds, Some(Message(ListKinds(ns), failure.value.error));
      }
      kinds := UserKinds(store(ns, KindKind));
    }
  }

  /** One namespace: its kinds, from the flag or from `metadataKinds`, each
      cleaned in turn. */
  method DeleteNamespace(ns: string, kindsFlag: string, store: Store, failure: Option<Failure>, base: nat)
      returns (issued: seq<Op>, err: Option<string>)
    ensures Outcome(issued, err) == IssueFrom(NamespacePlan(ns, kindsFlag, store), base, failure)
  {
    var kinds;
    issued, kinds, err := SelectKinds(ns, kindsFlag, store, failure, base);
    ghost var rest := Concat(KindsOf(ns, kindsFlag, store), KindPlanOf(ns, store));
    if err.Some? {
      IssueAppend(KindDiscovery(ns, kindsFlag), rest, base, failure);
      return;
    }
    var more;
    more, err := DeleteKinds(ns, kinds, store, failure, base + |issued|);
    IssueStep(KindDiscovery(ns, kindsFlag), rest, [], base, failure, issued, more, err);
    issued := issued + more;
  }

  /** The loop over the namespaces: each cleaned in turn. */
  method DeleteNamespaces(nss: seq<string>, kindsFlag: string, store: Store, failure: Option<Failure>, base: nat)
      returns (issued: seq<Op>, err: Option<string>)
    ensures Outcome(issued, err) == IssueFrom(Concat(nss, NamespacePlanOf(kindsFlag, store)), base, failure)
  {
    issued := [];
    err := None;
    ghost var plan := NamespacePlanOf(kindsFlag, store);
    var i := 0;
    while i < |nss|
      invariant i <= |nss|
      invariant Outcome(issued, None) == IssueFrom(Concat(nss[..i], plan), base, failure)
    {
      var more, e := DeleteNamespace(nss[i], kindsFlag, store, failure, base + |issued|);
      ConcatSplit(nss, i, plan);
      IssueStep(Concat(nss[..i], plan), plan(nss[i]), Concat(nss[i + 1..], plan),
                base, failure, issued, more, e);
      issued := issued + more;
      if e.Some? {
        return issued, e;
      }
      i := i + 1;
    }
    assert nss[..i] == nss;
  }

  /** The namespaces to clean: those of the flag, or, when the flag is empty,
      those the metadata query finds and the prompt selects. A failing
      metadata query ends the command. */
  method SelectTargets(nsFlag: string, store: Store, typed: seq<string>, failure: Option<Failure>)
      returns (issued: seq<Op>, namespaces: seq<string>, err: Option<string>)
    ensures Outcome(issued, err) == IssueFrom(Discovery(nsFlag), 0, failure)
    ensures err.None? ==> namespaces == NamespacesOf(nsFlag, store, typed)
  {
    issued := [];
    err := None;
    namespaces := Strings.Split(nsFlag, ',');
    if |namespaces| == 0 || nsFlag == "" {
      issued := [ListNamespaces];
      if failure.Some? && failure.value.at == 0 {
        return issued, namespaces, Some(Message(ListNamespaces, failure.value.error));
      }
      var discovered := Names(store("", NamespaceKind));
      if |discovered| > 0 {
        namespaces := SelectNamespaces(discovered, Choices(discovered), typed);
      }
    }
  }

  /** `DeleteAllCmd.Execute` after the client is opened: the namespaces from
      the flag, or discovered and offered at the prompt (`typed` holds the
      lines the user types there), then every kind of every namespace cleaned. The calls made
      are the planned calls up to and including the first that fails; the
      error returned is that call's. */
  method Execute(nsFlag: string, kindsFlag: string, store: Store, typed: seq<string>, failure: Option<Failure>)
      returns (issued: seq<Op>, err: Option<string>)
    ensures Outcome(issued, err) == IssueFrom(Plan(nsFlag, kindsFlag, store, typed), 0, failure)
  {
    var namespaces;
    issued, namespaces, err := SelectTargets(nsFlag, store, typed, failure);
    ghost var rest := Concat(NamespacesOf(nsFlag, store, typed), NamespacePlanOf(kindsFlag, store));
    ghost var outcome := IssueFrom(Discovery(nsFlag) + rest, 0, failure);
    if err.Some? {
      IssueAppend(Discovery(nsFlag), rest, 0, failure);
      assert Outcome(issued, err) == outcome;
    } else {
      var more;
      more, err := DeleteNamespaces(namespaces, kindsFlag, store, failure, |issued|);
      IssueStep(Discovery(nsFlag), rest, [], 0, failure, issued, more, err);
      issued := issued + more;
      assert Outcome(issued, err) == outcome;
    }
    assert Plan(nsFlag, kindsFlag, store, typed) == Discovery(nsFlag) + rest;
  }

  /* ---------- What the command reports ---------- */

  lemma ConcatOne<T>(x: T, plan: T -> seq<Op>)
    ensures Concat([x], plan) == plan(x)
  {
    assert [x][..0] == [];
  }

  /** With namespace `ns` and kind `kind` given as flags, the command makes
      exactly the calls for that one kind. */
  lemma OneKindPlan(ns: string, kind: string, store: Store, typed: seq<string>)
    requires ns != "" && ',' !in ns && kind != "" && ',' !in kind
    ensures Plan(ns, kind, store, typed) == KindPlan(ns, kind, store)
  {
    Strings.NoSepSplit(ns, ',');
    Strings.NoSepSplit(kind, ',');
    assert NamespacesOf(ns, store, typed) == [ns];
    assert KindsOf(ns, kind, store) == [kind];
    ConcatOne(ns, NamespacePlanOf(kind, store));
    ConcatOne(kind, KindPlanOf(ns, store));
    assert Plan(ns, kind, store, typed) == [] + NamespacePlan(ns, kind, store);
    assert NamespacePlan(ns, kind, store) == [] + KindPlan(ns, kind, store);
  }

  /** With no namespace given, a failing namespace query is the only call
      made, and the command returns its error wrapped by `metadataNamespaces`
      and then by `Execute`. */
  lemma NamespaceQueryFails(kindsFlag: string, store: Store, typed: seq<string>, e: string)
    ensures IssueFrom(Plan("", kindsFlag, store, typed), 0, Some(Failure(0, e)))
         == Outcome([ListNamespaces], Some("Unable to load list of namespaces: client.GetAll: " + e))
  {
    var plan := Plan("", kindsFlag, store, typed);
    assert plan[0] == ListNamespaces;
    assert plan[..1] == [ListNamespaces];
  }

  /** With namespace `ns` given and no kind, a failing kind query is the only
      call made, and the command returns its error as `metadataKinds` wraps
      it. */
  lemma KindQueryFails(ns: string, store: Store, typed: seq<string>, e: string)
    requires ns != "" && ',' !in ns
    ensures IssueFrom(Plan(ns, "", store, typed), 0, Some(Failure(0, e)))
         == Outcome([ListKinds(ns)], Some("client.GetAll: " + e))
  {
    Strings.NoSepSplit(ns, ',');
    assert NamespacesOf(ns, store, typed) == [ns];
    ConcatOne(ns, NamespacePlanOf("", store));
    var plan := Plan(ns, "", store, typed);
    assert plan == [] + NamespacePlan(ns, "", store);
    assert plan[0] == ListKinds(ns);
    assert plan[..1] == [ListKinds(ns)];
  }

  /** With one namespace and one kind given, a failing key listing is the
      only call made, and its error is handed back unchanged. */
  lemma KeyListingFails(ns: string, kind: string, store: Store, typed: seq<string>, e: string)
    requires ns != "" && ',' !in ns && kind != "" && ',' !in kind
    ensures IssueFrom(Plan(ns, kind, store, typed), 0, Some(Failure(0, e)))
         == Outcome([ListKeys(ns, kind)], Some(e))
  {
    OneKindPlan(ns, kind, store, typed);
    assert KindPlan(ns, kind, store)[..1] == [ListKeys(ns, kind)];
  }

  /** With one namespace and one kind holding keys given, a failing first
      `DeleteMulti` comes right after the listing, on the first (up to) 500
      keys, and its error is handed back unchanged. */
  lemma FirstDeleteFails(ns: string, kind: string, store: Store, typed: seq<string>, e: string)
    requires ns != "" && ',' !in ns && kind != "" && ',' !in kind
    requires |store(ns, kind)| > 0
    ensures IssueFrom(Plan(ns, kind, store, typed), 0, Some(Failure(1, e)))
         == Outcome([ListKeys(ns, kind), Delete(store(ns, kind)[..Min(BatchSize, |store(ns, kind)|)])], Some(e))
  {
    OneKindPlan(ns, kind, store, typed);
    KindFirstDeleteFails(ns, kind, store, e);
  }

  /** Cleaning a kind holding keys lists them, then deletes its first (up to)
      500 keys; when that delete fails, nothing else is called. */
  lemma KindFirstDeleteFails(ns: string, kind: string, store: Store, e: string)
    requires |store(ns, kind)| > 0
    ensures IssueFrom(KindPlan(ns, kind, store), 0, Some(Failure(1, e)))
         == Outcome([ListKeys(ns, kind), Delete(store(ns, kind)[..Min(BatchSize, |store(ns, kind)|)])], Some(e))
  {
    var keys := store(ns, kind);
    FirstBatch(keys);
    var ds := Deletes(Chunks(keys, BatchSize));
    assert KindPlan(ns, kind, store)[..2] == [ListKeys(ns, kind)] + ds[..1];
  }

  /** With one namespace and one kind given and no failure, the command lists
      the kind's keys first, deletes exactly those keys, and returns no
      error. */
  lemma OneKindCleaned(ns: string, kind: string, store: Store, typed: seq<string>)
    requires ns != "" && ',' !in ns && kind != "" && ',' !in kind
    ensures var o := IssueFrom(Plan(ns, kind, store, typed), 0, None);
            o.err.None? && o.issued[0] == ListKeys(ns, kind) && DeletedKeys(o.issued) == store(ns, kind)
  {
    OneKindPlan(ns, kind, store, typed);
    KindCalls(ns, kind, store);
  }

  /** The first `DeleteMulti` of a kind takes its first (up to) 500 keys. */
  lemma FirstBatch(keys: seq<Key>)
    requires |keys| > 0
    ensures |Deletes(Chunks(keys, BatchSize))| > 0
    ensures Deletes(Chunks(keys, BatchSize))[0] == Delete(keys[..Min(BatchSize, |keys|)])
  {
    DeletesOfBatches(Chunks(keys, BatchSize));
    if |keys| <= BatchSize {
      assert keys[..Min(BatchSize, |keys|)] == keys;
    }
  }
}
