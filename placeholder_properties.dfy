/** What placeholder resolution promises: text without placeholders is returned as it is,
    placeholders of undefined keys stay literally, chains of references are expanded to
    the end, a cycle of references never ends, and within one call every occurrence of a
    name receives the one value memoised for it. */
module PlaceholderProperties {
  import opened Common
  import Text
  import opened Placeholder

  // ---------------------------------------------------------------------------
  // Strings without placeholders, and undefined keys

  /** No part of s matches the pattern. */
  ghost predicate NoPlaceholder(s: string) {
    forall p, e :: !IsMatch(s, p, e)
  }

  lemma ScanNone(props: Store, active: set<string>, base: string, from: nat, resolved: string, memo: Memo)
    requires FindFrom(base, from).None?
    ensures Scan(props, active, base, from, resolved, memo) == Done(resolved, memo)
  {
  }

  /** A string in which nothing matches the pattern resolves to itself. */
  lemma NoPlaceholderUnchanged(props: Store, s: string)
    requires NoPlaceholder(s)
    ensures Resolve(props, s) == Ok(s)
  {
    assert FindFrom(s, 0).None?;
    ScanNone(props, {}, s, 0, s, map[]);
  }

  predicate AllNull(memo: Memo) {
    forall n :: n in memo ==> memo[n].None?
  }

  /** Every placeholder of s from position from on names a key that is not defined. */
  ghost predicate UndefinedFrom(props: Store, s: string, from: nat) {
    forall p: nat, e: nat :: from <= p && IsMatch(s, p, e) ==> Text.JavaTrim(Group(s, Span(p, e))) !in props
  }

  lemma FetchUndefined(props: Store, active: set<string>, name: string, memo: Memo)
    requires active <= props.Keys && AllNull(memo) && name !in props
    ensures Fetch(props, active, name, memo) == Done(None, if name in memo then memo else memo[name := None])
  {
    assert name !in active;
    assert LookupRec(props, active, None, memo) == Done(None, memo);
  }

  /** One step of the matcher loop over a placeholder naming an undefined key. */
  lemma UndefinedStep(props: Store, active: set<string>, base: string, from: nat, resolved: string, memo: Memo,
                      m: Span, memo': Memo)
    requires active <= props.Keys && AllNull(memo) && FindFrom(base, from) == Some(m)
    requires Text.JavaTrim(Group(base, m)) !in props
    requires var name := Text.JavaTrim(Group(base, m)); memo' == if name in memo then memo else memo[name := None]
    ensures AllNull(memo')
    ensures Scan(props, active, base, from, resolved, memo) == Scan(props, active, base, m.end, resolved, memo')
  {
    FetchUndefined(props, active, Text.JavaTrim(Group(base, m)), memo);
    ScanUnfold(props, active, base, from, resolved, memo, m, m.end, None, resolved, memo');
  }

  lemma {:induction false} ScanUndefined(props: Store, active: set<string>, base: string, from: nat, resolved: string, memo: Memo)
    requires active <= props.Keys && AllNull(memo) && UndefinedFrom(props, base, from)
    ensures var r := Scan(props, active, base, from, resolved, memo);
      r.Done? && r.value == resolved && AllNull(r.memo)
    decreases |base| - from
  {
    var found := FindFrom(base, from);
    if found.Some? {
      var m := found.value;
      var name := Text.JavaTrim(Group(base, m));
      assert name !in props by {
        assert IsMatch(base, m.start, m.end);
      }
      var memo' := if name in memo then memo else memo[name := None];
      UndefinedStep(props, active, base, from, resolved, memo, m, memo');
      assert UndefinedFrom(props, base, m.end);
      ScanUndefined(props, active, base, m.end, resolved, memo');
    }
  }

  /** A placeholder whose trimmed name is not a key keeps its literal text: a string whose
      placeholders all name undefined keys resolves to itself. */
  lemma UndefinedPlaceholdersKept(props: Store, s: string)
    requires UndefinedFrom(props, s, 0)
    ensures Resolve(props, s) == Ok(s)
  {
    ScanUndefined(props, {}, s, 0, s, map[]);
  }

  // ---------------------------------------------------------------------------
  // References, chains and cycles

  /** No brace in n, so the pattern's group can hold all of it. */
  predicate BraceFree(n: string) {
    forall i :: 0 <= i < |n| ==> !IsBrace(n[i])
  }

  /** A name the pattern reads back whole from "${name}": no braces, nothing to trim. */
  predicate PlainName(n: string) {
    BraceFree(n) && Text.JavaTrimmed(n)
  }

  /** The placeholder "${n}". */
  function Ref(n: string): string {
    "${" + n + "}"
  }

  /** The characters of "${n}". */
  lemma RefChars(n: string)
    ensures var s := Ref(n);
      && |s| == |n| + 3 && s[0] == '$' && s[1] == '{' && s[|n| + 2] == '}'
      && s[2 .. |n| + 2] == n && s[..0] == [] && s[|n| + 3..] == []
  {
  }

  /** The first brace of "${n}" after its opening is its closing brace, when n has none. */
  lemma RefBrace(n: string)
    requires BraceFree(n)
    ensures BraceFrom(Ref(n), 2) == Some(|n| + 2)
  {
    var s := Ref(n);
    RefChars(n);
    assert IsBrace(s[|n| + 2]);
  }

  lemma RefMatches(n: string)
    requires BraceFree(n)
    ensures FindFrom(Ref(n), 0) == Some(Span(0, |n| + 3))
    ensures FindFrom(Ref(n), |n| + 3) == None
    ensures Group(Ref(n), Span(0, |n| + 3)) == n
    ensures forall v :: ReplaceFirst(Ref(n), v) == v
  {
    var s := Ref(n);
    RefChars(n);
    RefBrace(n);
    assert FindFrom(s, 0) == Some(Span(0, |n| + 3));
    forall v ensures ReplaceFirst(s, v) == v {
      assert s[..0] + v + s[|n| + 3..] == v;
    }
  }

  /** Resolving "${n}" for a defined key n is fetching n. */
  lemma LookupRef(props: Store, active: set<string>, n: string, memo: Memo)
    requires PlainName(n) && n in props
    ensures LookupRec(props, active, Some(Ref(n)), memo) ==
      match Fetch(props, active, n, memo)
      case Unbounded => Unbounded
      case Done(v, memo') => Done(Some(Substitute(Ref(n), v)), memo')
  {
    RefMatches(n);
    var s := Ref(n);
    var m := Span(0, |n| + 3);
    Text.JavaTrimmedTrim(n);
    assert Text.JavaTrim(Group(s, m)) == n;
    match Fetch(props, active, n, memo)
    case Unbounded =>
      ScanStuck(props, active, s, 0, s, memo, m);
    case Done(v, memo') =>
      ScanUnfold(props, active, s, 0, s, memo, m, |n| + 3, v, Substitute(s, v), memo');
      ScanNone(props, active, s, |n| + 3, Substitute(s, v), memo');
  }

  /** Fetching a defined key that is neither memoised nor on the stack. */
  lemma FetchFresh(props: Store, active: set<string>, n: string, memo: Memo)
    requires n in props && n !in memo && n !in active
    ensures Fetch(props, active, n, memo) ==
      match LookupRec(props, active + {n}, Some(props[n]), memo)
      case Unbounded => Unbounded
      case Done(v, memo') => Done(v, memo'[n := v])
  {
    assert Raw(props, n) == Some(props[n]);
  }

  /** Resolving "${n}" for a defined key n not yet memoised and not on the stack is
      resolving n's own value one level deeper, then memoising it under n. */
  lemma ResolveRef(props: Store, active: set<string>, n: string, memo: Memo)
    requires PlainName(n) && n in props && n !in memo && n !in active
    ensures LookupRec(props, active, Some(Ref(n)), memo) ==
      match LookupRec(props, active + {n}, Some(props[n]), memo)
      case Unbounded => Unbounded
      case Done(v, memo') => Done(v, memo'[n := v])
  {
    LookupRef(props, active, n, memo);
    FetchFresh(props, active, n, memo);
    var inner := LookupRec(props, active + {n}, Some(props[n]), memo);
    if inner.Done? {
      var v := inner.value;
      assert v.Some?;
      assert Some(Substitute(Ref(n), v)) == v by {
        RefMatches(n);
      }
    }
  }

  /** chain[i] refers to chain[i + 1]: the chain's keys are defined, distinct, plain
      names, the value of each but the last being the placeholder of the next. */
  predicate Chain(props: Store, chain: seq<string>) {
    && |chain| > 0
    && (forall i :: 0 <= i < |chain| ==> chain[i] in props && PlainName(chain[i]))
    && (forall i, j :: 0 <= i < j < |chain| ==> chain[i] != chain[j])
    && (forall i :: 0 <= i < |chain| - 1 ==> Linked(props, chain, i))
  }

  /** The value of chain[i] is the placeholder of chain[i + 1]. */
  predicate Linked(props: Store, chain: seq<string>, i: nat)
    requires i + 1 < |chain|
  {
    chain[i] in props && props[chain[i]] == Ref(chain[i + 1])
  }

  function Prefix(chain: seq<string>, i: nat): set<string>
    requires i <= |chain|
  {
    if i == 0 then {} else Prefix(chain, i - 1) + {chain[i - 1]}
  }

  lemma {:induction false} PrefixMembers(chain: seq<string>, i: nat, x: string)
    requires i <= |chain|
    ensures x in Prefix(chain, i) <==> exists j :: 0 <= j < i && chain[j] == x
  {
    if i > 0 {
      PrefixMembers(chain, i - 1, x);
    }
  }

  /** How a resolution ends, without its memo: None when it recurses without bound. */
  function End(o: Outcome<Option<string>>): Option<Option<string>> {
    if o.Unbounded? then None else Some(o.value)
  }

  lemma PrefixStep(props: Store, chain: seq<string>, i: nat)
    requires Chain(props, chain) && i < |chain|
    ensures chain[i] !in Prefix(chain, i)
    ensures Prefix(chain, i) + {chain[i]} == Prefix(chain, i + 1)
  {
    PrefixMembers(chain, i, chain[i]);
  }

  /** Memoising a value keeps the end of a resolution. */
  lemma EndStore(a: Outcome<Option<string>>, b: Outcome<Option<string>>, n: string)
    requires a == match b
      case Unbounded => Unbounded
      case Done(v, memo) => Done(v, memo[n := v])
    ensures End(a) == End(b)
  {
  }

  /** One level of a chain: resolving "${chain[i]}" ends as resolving the placeholder of
      the next key with chain[i] pushed on the stack. */
  lemma ChainLink(props: Store, chain: seq<string>, i: nat)
    requires Chain(props, chain) && i + 1 < |chain|
    ensures End(LookupRec(props, Prefix(chain, i), Some(Ref(chain[i])), map[])) ==
            End(LookupRec(props, Prefix(chain, i + 1), Some(Ref(chain[i + 1])), map[]))
  {
    var n := chain[i];
    PrefixStep(props, chain, i);
    ResolveRef(props, Prefix(chain, i), n, map[]);
    assert Linked(props, chain, i);
    EndStore(LookupRec(props, Prefix(chain, i), Some(Ref(n)), map[]),
             LookupRec(props, Prefix(chain, i + 1), Some(props[n]), map[]), n);
  }

  /** The last level of a chain, at i: resolving its placeholder is resolving its value
      with the whole chain on the stack. */
  lemma ChainLast(props: Store, chain: seq<string>, i: nat)
    requires Chain(props, chain) && i + 1 == |chain|
    ensures End(LookupRec(props, Prefix(chain, i), Some(Ref(chain[i])), map[])) ==
            End(LookupRec(props, Prefix(chain, |chain|), Some(props[chain[|chain| - 1]]), map[]))
  {
    var n := chain[i];
    assert chain[|chain| - 1] == n;
    PrefixStep(props, chain, i);
    assert Prefix(chain, i + 1) == Prefix(chain, |chain|);
    ResolveRef(props, Prefix(chain, i), n, map[]);
    EndStore(LookupRec(props, Prefix(chain, i), Some(Ref(n)), map[]),
             LookupRec(props, Prefix(chain, |chain|), Some(props[n]), map[]), n);
  }

  /** ChainLink carried to the end of the chain. */
  lemma ChainStep(props: Store, chain: seq<string>, i: nat)
    requires Chain(props, chain) && i + 1 < |chain|
    requires End(LookupRec(props, Prefix(chain, i + 1), Some(Ref(chain[i + 1])), map[])) ==
             End(LookupRec(props, Prefix(chain, |chain|), Some(props[chain[|chain| - 1]]), map[]))
    ensures End(LookupRec(props, Prefix(chain, i), Some(Ref(chain[i])), map[])) ==
            End(LookupRec(props, Prefix(chain, |chain|), Some(props[chain[|chain| - 1]]), map[]))
  {
    ChainLink(props, chain, i);
  }

  /** Resolving "${chain[i]}" ends as resolving the last key's value with the whole
      chain on the stack. */
  lemma {:induction false} ChainDescent(props: Store, chain: seq<string>, i: nat)
    requires Chain(props, chain) && i < |chain|
    ensures End(LookupRec(props, Prefix(chain, i), Some(Ref(chain[i])), map[])) ==
            End(LookupRec(props, Prefix(chain, |chain|), Some(props[chain[|chain| - 1]]), map[]))
    decreases |chain| - i
  {
    if i + 1 < |chain| {
      ChainDescent(props, chain, i + 1);
      ChainStep(props, chain, i);
    } else {
      ChainLast(props, chain, i);
    }
  }

  /** A value with no placeholder resolves to itself at any depth, with the memo untouched. */
  lemma PlainLookup(props: Store, active: set<string>, s: string)
    requires NoPlaceholder(s)
    ensures LookupRec(props, active, Some(s), map[]) == Done(Some(s), map[])
  {
    assert FindFrom(s, 0).None?;
    ScanNone(props, active, s, 0, s, map[]);
  }

  /** An acyclic chain of references of any length is expanded all the way: "${chain[0]}"
      resolves to the value of the last key when that value holds no placeholder. */
  lemma ChainExpands(props: Store, chain: seq<string>)
    requires Chain(props, chain)
    requires NoPlaceholder(props[chain[|chain| - 1]])
    ensures Resolve(props, Ref(chain[0])) == Ok(props[chain[|chain| - 1]])
  {
    var last := props[chain[|chain| - 1]];
    var all := Prefix(chain, |chain|);
    ChainDescent(props, chain, 0);
    assert Prefix(chain, 0) == {};
    PlainLookup(props, all, last);
    var a := LookupRec(props, {}, Some(Ref(chain[0])), map[]);
    assert a.Done? && a.value == Some(last);
  }

  /** A chain whose last key refers back to the first is a cycle: its resolution recurses
      without bound in the source, which the model reports as a stack overflow. A key
      whose value is its own placeholder is the cycle of length one. */
  lemma CycleOverflows(props: Store, chain: seq<string>)
    requires Chain(props, chain)
    requires props[chain[|chain| - 1]] == Ref(chain[0])
    ensures Resolve(props, Ref(chain[0])) == Err(StackOverflow)
  {
    var all := Prefix(chain, |chain|);
    ChainDescent(props, chain, 0);
    assert Prefix(chain, 0) == {};
    PrefixMembers(chain, |chain|, chain[0]);
    assert chain[0] in all;
    assert Fetch(props, all, chain[0], map[]) == Unbounded;
    LookupRef(props, all, chain[0], map[]);
  }

  // ---------------------------------------------------------------------------
  // Memoisation

  /** The memo only grows: entries keep their values, and no key on the stack is added. */
  predicate Grows(small: Memo, big: Memo, active: set<string>) {
    && (forall n :: n in small ==> n in big && big[n] == small[n])
    && (forall n :: n in big && n !in small ==> n !in active)
  }

  /** Every memoised value is null exactly for an undefined key. */
  predicate MemoSound(props: Store, memo: Memo) {
    forall n :: n in memo ==> (memo[n].Some? <==> n in props)
  }

  lemma {:induction false} LookupRecGrows(props: Store, active: set<string>, base: Option<string>, memo: Memo)
    requires MemoSound(props, memo)
    ensures var r := LookupRec(props, active, base, memo);
      r.Done? ==> Grows(memo, r.memo, active) && MemoSound(props, r.memo)
    decreases |props.Keys - active|, if base.None? then 0 else 2, 0
  {
    if base.Some? {
      ScanGrows(props, active, base.value, 0, base.value, memo);
    }
  }

  lemma GrowsStore(props: Store, memo: Memo, memo': Memo, active: set<string>, inner: set<string>, name: string, v: Option<string>)
    requires active <= inner && name !in memo && name !in active
    requires Grows(memo, memo', inner) && MemoSound(props, memo')
    requires v.Some? <==> name in props
    ensures Grows(memo, memo'[name := v], active) && MemoSound(props, memo'[name := v])
  {
  }

  lemma {:induction false} FetchGrows(props: Store, active: set<string>, name: string, memo: Memo)
    requires MemoSound(props, memo)
    ensures var r := Fetch(props, active, name, memo);
      r.Done? ==> Grows(memo, r.memo, active) && MemoSound(props, r.memo) && name in r.memo && r.memo[name] == r.value
    decreases |props.Keys - active|, 1, 0
  {
    if name !in memo && name !in active {
      var inner := if name in props then active + {name} else active;
      Shrink(props.Keys, active, name);
      LookupRecGrows(props, inner, Raw(props, name), memo);
      var sub := LookupRec(props, inner, Raw(props, name), memo);
      assert Fetch(props, active, name, memo) == match sub
        case Unbounded => Unbounded
        case Done(v, memo') => Done(v, memo'[name := v]);
      if sub.Done? {
        var v, memo' := sub.value, sub.memo;
        assert v.Some? <==> name in props;
        GrowsStore(props, memo, memo', active, inner, name, v);
      }
    }
  }

  lemma {:induction false} ScanGrows(props: Store, active: set<string>, base: string, from: nat, resolved: string, memo: Memo)
    requires MemoSound(props, memo)
    ensures var r := Scan(props, active, base, from, resolved, memo);
      r.Done? ==> Grows(memo, r.memo, active) && MemoSound(props, r.memo)
    decreases |props.Keys - active|, 1, |base| - from
  {
    match FindFrom(base, from)
    case None =>
    case Some(m) =>
      var name := Text.JavaTrim(Group(base, m));
      FetchGrows(props, active, name, memo);
      match Fetch(props, active, name, memo)
      case Unbounded =>
      case Done(v, memo') =>
        ScanGrows(props, active, base, m.end, Substitute(resolved, v), memo');
  }

  /** The trimmed names of the matches of base from position from on, in scan order. */
  function Names(base: string, from: nat): seq<string>
    decreases |base| - from
  {
    match FindFrom(base, from)
    case None => []
    case Some(m) => [Text.JavaTrim(Group(base, m))] + Names(base, m.end)
  }

  function MemoValue(memo: Memo, name: string): Option<string> {
    if name in memo then memo[name] else None
  }

  /** The rewriting of base by one fixed memo: the matches of base from position from on,
      in order, each putting its name's memoised value, when not null, in place of the
      first remaining match of the accumulating string. */
  function Replay(base: string, from: nat, resolved: string, memo: Memo): string
    decreases |base| - from
  {
    match FindFrom(base, from)
    case None => resolved
    case Some(m) => Replay(base, m.end, Substitute(resolved, MemoValue(memo, Text.JavaTrim(Group(base, m)))), memo)
  }

  lemma {:induction false} ScanReplays(props: Store, active: set<string>, base: string, from: nat, resolved: string, memo: Memo)
    requires MemoSound(props, memo)
    ensures var r := Scan(props, active, base, from, resolved, memo);
      r.Done? ==> r.value == Replay(base, from, resolved, r.memo) && forall n :: n in Names(base, from) ==> n in r.memo
    decreases |base| - from
  {
    match FindFrom(base, from)
    case None =>
    case Some(m) =>
      var name := Text.JavaTrim(Group(base, m));
      FetchGrows(props, active, name, memo);
      match Fetch(props, active, name, memo)
      case Unbounded =>
      case Done(v, memo') =>
        ScanReplays(props, active, base, m.end, Substitute(resolved, v), memo');
        ScanGrows(props, active, base, m.end, Substitute(resolved, v), memo');
  }

  /** Memoisation within one top-level call: every name met is memoised, every occurrence
      of a name receives the one value memoised for it, null exactly for an undefined key,
      and that value goes in place of the first remaining match of the accumulating
      string, whichever name that match carries. */
  lemma ResolveMemoised(props: Store, s: string)
    ensures var r := LookupRec(props, {}, Some(s), map[]);
      r.Done? ==>
        && MemoSound(props, r.memo)
        && (forall n :: n in Names(s, 0) ==> n in r.memo)
        && Resolve(props, s) == Ok(Replay(s, 0, s, r.memo))
  {
    ScanReplays(props, {}, s, 0, s, map[]);
    ScanGrows(props, {}, s, 0, s, map[]);
  }

  // ---------------------------------------------------------------------------
  // Placeholders among other text

  /** No '$' in s, so no match starts anywhere in it. */
  predicate DollarFree(s: string) {
    forall i :: 0 <= i < |s| ==> s[i] != '$'
  }

  /** A match is determined by where it starts. */
  lemma MatchUnique(s: string, p: int, e1: int, e2: int)
    requires IsMatch(s, p, e1) && IsMatch(s, p, e2)
    ensures e1 == e2
  {
    if e1 < e2 {
      assert IsBrace(s[e1 - 1]);
    } else if e2 < e1 {
      assert IsBrace(s[e2 - 1]);
    }
  }

  /** Nothing matches in a string without '$'. */
  lemma FindDollarFree(s: string, from: nat)
    requires from >= |s| || DollarFree(s[from..])
    ensures FindFrom(s, from) == None
  {
    if from < |s| {
      assert forall p :: from <= p < |s| ==> s[p] != '$' by {
        assert forall p :: from <= p < |s| ==> s[from..][p - from] == s[p];
      }
    }
  }

  /** A value without '$' is returned by resolution as it is. */
  lemma DollarFreeUnchanged(props: Store, s: string)
    requires DollarFree(s)
    ensures Resolve(props, s) == Ok(s)
  {
    assert s[0..] == s;
    FindDollarFree(s, 0);
    ScanNone(props, {}, s, 0, s, map[]);
  }

  /** In pre + "${n}" + post, searching from a position of pre after which pre holds no
      '$' finds the placeholder "${n}". */
  lemma FindRef(pre: string, n: string, post: string, from: nat)
    requires from <= |pre| && DollarFree(pre[from..]) && BraceFree(n)
    ensures FindFrom(pre + Ref(n) + post, from) == Some(Span(|pre|, |pre| + |n| + 3))
    ensures Group(pre + Ref(n) + post, Span(|pre|, |pre| + |n| + 3)) == n
  {
    var s := pre + Ref(n) + post;
    var e := |pre| + |n| + 3;
    assert forall i :: 0 <= i < |n| ==> s[|pre| + 2 + i] == n[i];
    assert IsMatch(s, |pre|, e);
    assert forall p :: from <= p < |pre| ==> s[p] != '$' by {
      assert forall p :: from <= p < |pre| ==> pre[from..][p - from] == s[p];
    }
    var r := FindFrom(s, from);
    assert r.Some? && r.value.start == |pre|;
    MatchUnique(s, |pre|, r.value.end, e);
    assert s[|pre| + 2 .. e - 1] == n;
  }

  /** replaceFirst on pre + "${n}" + post, when pre holds no '$'. */
  lemma ReplaceRef(pre: string, n: string, post: string, v: string)
    requires DollarFree(pre) && BraceFree(n)
    ensures ReplaceFirst(pre + Ref(n) + post, v) == pre + v + post
  {
    assert pre[0..] == pre;
    FindRef(pre, n, post, 0);
    var s := pre + Ref(n) + post;
    assert s[..|pre|] == pre;
    assert s[|pre| + |n| + 3..] == post;
  }

  /** A defined key whose value holds no '$' is fetched as that value, memoised or not. */
  lemma FetchLiteral(props: Store, active: set<string>, n: string, memo: Memo)
    requires n in props && n !in active && DollarFree(props[n])
    requires n in memo ==> memo[n] == Some(props[n])
    ensures Fetch(props, active, n, memo) == Done(Some(props[n]), memo[n := Some(props[n])])
  {
    var v := props[n];
    if n in memo {
      assert memo[n := Some(v)] == memo;
    } else {
      assert v[0..] == v;
      FindDollarFree(v, 0);
      ScanNone(props, active + {n}, v, 0, v, memo);
    }
  }

  /** One step of the matcher loop over a placeholder "${n}" of a defined key whose value
      holds no '$': the value goes in place of the first remaining match "${k}" of the
      accumulating string, whatever its name k, and is memoised under n. */
  lemma ScanLiteral(props: Store, active: set<string>, base: string, pre: string, n: string, post: string, from: nat,
                    to: nat, resolved: string, rpre: string, k: string, rpost: string, memo: Memo,
                    resolved': string, memo': Memo)
    requires base == pre + Ref(n) + post && resolved == rpre + Ref(k) + rpost && to == |pre| + |n| + 3
    requires from <= |pre| && DollarFree(pre[from..]) && PlainName(n) && DollarFree(rpre) && BraceFree(k)
    requires n in props && n !in active && DollarFree(props[n])
    requires n in memo ==> memo[n] == Some(props[n])
    requires resolved' == rpre + props[n] + rpost && memo' == memo[n := Some(props[n])]
    ensures Scan(props, active, base, from, resolved, memo) == Scan(props, active, base, to, resolved', memo')
  {
    var m := Span(|pre|, |pre| + |n| + 3);
    FindRef(pre, n, post, from);
    Text.JavaTrimmedTrim(n);
    assert Text.JavaTrim(Group(base, m)) == n;
    FetchLiteral(props, active, n, memo);
    ReplaceRef(rpre, k, rpost, props[n]);
    ScanUnfold(props, active, base, from, resolved, memo, m, to, Some(props[n]), resolved', memo');
  }

  /** One step of the matcher loop over a placeholder "${n}" of an undefined key: nothing
      is replaced, and null is memoised. */
  lemma ScanUndefinedStep(props: Store, active: set<string>, base: string, pre: string, n: string, post: string, from: nat,
                          to: nat, resolved: string, memo: Memo, memo': Memo)
    requires base == pre + Ref(n) + post && to == |pre| + |n| + 3
    requires from <= |pre| && DollarFree(pre[from..]) && PlainName(n)
    requires active <= props.Keys && n !in props && AllNull(memo)
    requires memo' == if n in memo then memo else memo[n := None]
    ensures Scan(props, active, base, from, resolved, memo) == Scan(props, active, base, to, resolved, memo')
  {
    var m := Span(|pre|, |pre| + |n| + 3);
    FindRef(pre, n, post, from);
    Text.JavaTrimmedTrim(n);
    assert Text.JavaTrim(Group(base, m)) == n;
    FetchUndefined(props, active, n, memo);
    ScanUnfold(props, active, base, from, resolved, memo, m, to, None, resolved, memo');
  }

  /** Two placeholders around a separator expand to their keys' values:
      a = "${x}/${y}" with x = "1" and y = "2" gives "1/2". The second name is looked up in
      the memo the first one left, which holds it already when the names are equal. */
  lemma TwoRefsExpand(props: Store, x: string, sep: string, y: string)
    requires PlainName(x) && PlainName(y) && DollarFree(sep)
    requires x in props && y in props && DollarFree(props[x]) && DollarFree(props[y])
    ensures Resolve(props, Ref(x) + sep + Ref(y)) == Ok(props[x] + sep + props[y])
  {
    var s := Ref(x) + sep + Ref(y);
    var vx, vy := props[x], props[y];
    var empty: Memo := map[];
    var memo1 := empty[x := Some(vx)];
    var memo2 := memo1[y := Some(vy)];
    var r1, r2 := vx + sep + Ref(y), vx + sep + vy;
    var e1, e2 := |x| + 3, |s|;
    assert s == "" + Ref(x) + (sep + Ref(y));
    assert DollarFree(""[0..]);
    ScanLiteral(props, {}, s, "", x, sep + Ref(y), 0, e1, s, "", x, sep + Ref(y), empty, r1, memo1);
    assert s == (Ref(x) + sep) + Ref(y) + "";
    assert r1 == (vx + sep) + Ref(y) + "";
    assert (Ref(x) + sep)[e1..] == sep;
    assert |Ref(x) + sep| + |y| + 3 == e2;
    ScanLiteral(props, {}, s, Ref(x) + sep, y, "", e1, e2, r1, vx + sep, y, "", memo1, r2, memo2);
    FindDollarFree(s, e2);
    ScanNone(props, {}, s, e2, r2, memo2);
  }

  /** lookup(s) is the matcher loop over s, started with s itself and an empty memo. */
  lemma ResolveScan(props: Store, s: string)
    ensures Resolve(props, s) ==
      match Scan(props, {}, s, 0, s, map[])
      case Unbounded => Err(StackOverflow)
      case Done(v, _) => Ok(v)
  {
  }

  /** The first step over "${z}${y}" with z undefined: nothing is replaced. */
  lemma FirstRemainingStep1(props: Store, z: string, y: string)
    requires PlainName(z) && z !in props
    ensures var s := Ref(z) + Ref(y); var empty: Memo := map[];
      Scan(props, {}, s, 0, s, empty) == Scan(props, {}, s, |z| + 3, s, empty[z := None])
  {
    var s := Ref(z) + Ref(y);
    var empty: Memo := map[];
    assert s == "" + Ref(z) + Ref(y);
    assert DollarFree(""[0..]);
    ScanUndefinedStep(props, {}, s, "", z, Ref(y), 0, |z| + 3, s, empty, empty[z := None]);
  }

  /** The second step over "${z}${y}": y's value replaces the first remaining match, "${z}". */
  lemma FirstRemainingStep2(props: Store, z: string, y: string, memo1: Memo)
    requires PlainName(z) && PlainName(y) && z !in props
    requires y in props && DollarFree(props[y]) && y !in memo1
    ensures var s := Ref(z) + Ref(y);
      Scan(props, {}, s, |z| + 3, s, memo1) == Scan(props, {}, s, |s|, props[y] + Ref(y), memo1[y := Some(props[y])])
  {
    var s := Ref(z) + Ref(y);
    assert s == Ref(z) + Ref(y) + "";
    assert DollarFree(Ref(z)[|z| + 3..]);
    assert |Ref(z)| + |y| + 3 == |s|;
    ScanLiteral(props, {}, s, Ref(z), y, "", |z| + 3, |s|, s, "", z, Ref(y), memo1,
                props[y] + Ref(y), memo1[y := Some(props[y])]);
  }

  /** The value of a name replaces the FIRST remaining match of the accumulating string,
      not the match that carried the name: with z undefined, "${z}${y}" resolves to
      y's value followed by "${y}", the undefined placeholder having been left in place
      ahead of it. */
  lemma FirstRemainingMatch(props: Store, z: string, y: string)
    requires PlainName(z) && PlainName(y) && z !in props
    requires y in props && DollarFree(props[y])
    ensures Resolve(props, Ref(z) + Ref(y)) == Ok(props[y] + Ref(y))
  {
    var s := Ref(z) + Ref(y);
    var empty: Memo := map[];
    var memo1 := empty[z := None];
    var r2 := props[y] + Ref(y);
    FirstRemainingStep1(props, z, y);
    assert y !in memo1;
    FirstRemainingStep2(props, z, y, memo1);
    FindDollarFree(s, |s|);
    ScanNone(props, {}, s, |s|, r2, memo1[y := Some(props[y])]);
    ResolveScan(props, s);
  }
}
