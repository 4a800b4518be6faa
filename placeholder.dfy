/** Placeholder resolution: how the configuration class expands `${name}` inside a
    value, using the regular expression \$\{([^{}]*)\}, a memo of the names already
    resolved within one top-level call, and Matcher.replaceFirst on the accumulating
    string. */
module Placeholder {
  import opened Common
  import Text

  type Store = map<string, string>

  /** The names resolved so far in one top-level call; None records an undefined key. */
  type Memo = map<string, Option<string>>

  // ---------------------------------------------------------------------------
  // The regular expression \$\{([^{}]*)\}

  predicate IsBrace(c: char) {
    c == '{' || c == '}'
  }

  /** s[start..end] matches the pattern: "${", then no brace, then "}". */
  predicate IsMatch(s: string, start: int, end: int) {
    && 0 <= start && start + 3 <= end <= |s|
    && s[start] == '$' && s[start + 1] == '{' && s[end - 1] == '}'
    && forall k :: start + 2 <= k < end - 1 ==> !IsBrace(s[k])
  }

  datatype Span = Span(start: nat, end: nat)

  /** The text between the braces of a match (group 2 of the pattern). */
  function Group(s: string, m: Span): string
    requires m.start + 3 <= m.end <= |s|
  {
    s[m.start + 2 .. m.end - 1]
  }

  /** The first brace of s at or after j. */
  function BraceFrom(s: string, j: nat): (r: Option<nat>)
    requires j <= |s|
    ensures r.Some? ==> j <= r.value < |s| && IsBrace(s[r.value])
    ensures r.Some? ==> forall k :: j <= k < r.value ==> !IsBrace(s[k])
    ensures r.None? ==> forall k :: j <= k < |s| ==> !IsBrace(s[k])
    decreases |s| - j
  {
    if j == |s| then None else if IsBrace(s[j]) then Some(j) else BraceFrom(s, j + 1)
  }

  /** Matcher.find() started at from: the leftmost match that starts at or after from. */
  function FindFrom(s: string, from: nat): (r: Option<Span>)
    ensures r.Some? ==> from <= r.value.start && IsMatch(s, r.value.start, r.value.end)
    ensures r.Some? ==> forall p, e :: from <= p < r.value.start ==> !IsMatch(s, p, e)
    ensures r.None? ==> forall p, e :: from <= p ==> !IsMatch(s, p, e)
    decreases |s| - from
  {
    if from + 3 > |s| then None
    else if s[from] == '$' && s[from + 1] == '{' then
      match BraceFrom(s, from + 2)
      case Some(k) =>
        if s[k] == '}' then Some(Span(from, k + 1))
        else
          assert IsBrace(s[k]) && s[k] != '}';
          assert forall e :: !IsMatch(s, from, e);
          FindFrom(s, from + 1)
      case None => FindFrom(s, from + 1)
    else FindFrom(s, from + 1)
  }

  /** Matcher.replaceFirst(REGEX_STRING, Matcher.quoteReplacement(v)): the leftmost match of
      s replaced by v, taken literally; s itself when nothing matches. */
  function ReplaceFirst(s: string, v: string): string {
    match FindFrom(s, 0)
    case None => s
    case Some(m) => s[..m.start] + v + s[m.end..]
  }

  /** The accumulating string after one match: replaced only when the value is not null. */
  function Substitute(resolved: string, value: Option<string>): string {
    if value.Some? then ReplaceFirst(resolved, value.value) else resolved
  }

  /** PROPERTIES_MAP.get(name). */
  function Raw(props: Store, name: string): Option<string> {
    if name in props then Some(props[name]) else None
  }

  // ---------------------------------------------------------------------------
  // The resolver

  /** The end of a call of lookupRecursively: its value and the memo as it left it, or
      Unbounded when the call recursed into a key it was still resolving, where the
      source recurses without bound until the stack overflows. */
  datatype Outcome<T> = Done(value: T, memo: Memo) | Unbounded

  /** Pushing a key that is not on the stack leaves fewer keys to push. */
  lemma Shrink(keys: set<string>, active: set<string>, name: string)
    requires name !in active
    ensures name in keys ==> |keys - (active + {name})| < |keys - active|
  {
    assert keys - (active + {name}) == (keys - active) - {name};
  }

  /** lookupRecursively(base, found), where active holds the keys whose values are being
      resolved by the calls below on the stack. A null base gives null. */
  function LookupRec(props: Store, active: set<string>, base: Option<string>, memo: Memo): (r: Outcome<Option<string>>)
    ensures base.None? ==> r == Done(None, memo)
    ensures r.Done? ==> (r.value.Some? <==> base.Some?)
    decreases |props.Keys - active|, if base.None? then 0 else 2, 0
  {
    match base
    case None => Done(None, memo)
    case Some(s) =>
      match Scan(props, active, s, 0, s, memo)
      case Unbounded => Unbounded
      case Done(resolved, memo') => Done(Some(resolved), memo')
  }

  /** The value of one placeholder name: the memoised one, or else the recursive lookup of
      the name's raw value, which is then memoised. Entering a key that is still being
      resolved is the unbounded recursion of the source. */
  function Fetch(props: Store, active: set<string>, name: string, memo: Memo): Outcome<Option<string>>
    decreases |props.Keys - active|, 1, 0
  {
    if name in memo then Done(memo[name], memo)
    else if name in active then Unbounded
    else
      var inner := if name in props then active + {name} else active;
      assert name in props ==> |props.Keys - inner| < |props.Keys - active| by {
        Shrink(props.Keys, active, name);
      }
      match LookupRec(props, inner, Raw(props, name), memo)
      case Unbounded => Unbounded
      case Done(v, memo') => Done(v, memo'[name := v])
  }

  /** The `while (matcher.find())` loop of lookupRecursively over the original string base,
      from position from on, with resolved the accumulating string: each trimmed name is
      fetched, and a non-null value replaces the first remaining match of resolved. */
  function Scan(props: Store, active: set<string>, base: string, from: nat, resolved: string, memo: Memo): Outcome<string>
    decreases |props.Keys - active|, 1, |base| - from
  {
    match FindFrom(base, from)
    case None => Done(resolved, memo)
    case Some(m) =>
      match Fetch(props, active, Text.JavaTrim(Group(base, m)), memo)
      case Unbounded => Unbounded
      case Done(v, memo') => Scan(props, active, base, m.end, Substitute(resolved, v), memo')
  }

  /** lookup(base): base with its placeholders expanded against props, with a fresh memo. */
  function Resolve(props: Store, base: string): Result<string> {
    match LookupRec(props, {}, Some(base), map[])
    case Unbounded => Err(StackOverflow)
    case Done(v, _) => Ok(v.value)
  }

  /** One step of the matcher loop, unfolded. */
  lemma ScanUnfold(props: Store, active: set<string>, base: string, from: nat, resolved: string, memo: Memo,
                   m: Span, to: nat, v: Option<string>, resolved': string, memo': Memo)
    requires FindFrom(base, from) == Some(m) && m.end == to
    requires Fetch(props, active, Text.JavaTrim(Group(base, m)), memo) == Done(v, memo')
    requires Substitute(resolved, v) == resolved'
    ensures Scan(props, active, base, from, resolved, memo) == Scan(props, active, base, to, resolved', memo')
  {
  }

  /** A step of the matcher loop that re-enters a key being resolved never ends. */
  lemma ScanStuck(props: Store, active: set<string>, base: string, from: nat, resolved: string, memo: Memo, m: Span)
    requires FindFrom(base, from) == Some(m)
    requires Fetch(props, active, Text.JavaTrim(Group(base, m)), memo) == Unbounded
    ensures Scan(props, active, base, from, resolved, memo) == Unbounded
  {
  }

  /** lookupRecursively as the source runs it: the matcher loop reassigns the accumulating
      string and puts each newly resolved name into the memo. The stack parameter holds the
      keys being resolved further down the call stack; overflow reports the call that
      re-enters one of them, which the source repeats until the stack overflows. */
  method LookupRecursively(props: Store, stack: set<string>, base: Option<string>, found: Memo)
    returns (value: Option<string>, found': Memo, overflow: bool)
    ensures LookupRec(props, stack, base, found) == if overflow then Unbounded else Done(value, found')
    decreases |props.Keys - stack|, if base.None? then 0 else 2
  {
    value, found', overflow := None, found, false;
    if base.None? {
      return;
    }
    var s := base.value;
    var resolved := s;
    var pos := 0;
    var m := FindFrom(s, 0);
    while m.Some?
      invariant pos <= |s| && m == FindFrom(s, pos)
      invariant Scan(props, stack, s, 0, s, found) == Scan(props, stack, s, pos, resolved, found')
      decreases |s| - pos
    {
      var name := Text.JavaTrim(Group(s, m.value));
      ghost var before := found';
      var v: Option<string>;
      if name in found' {
        v := found'[name];
      } else if name in stack {
        overflow := true;
        ScanStuck(props, stack, s, pos, resolved, before, m.value);
        return;
      } else {
        var inner := stack;
        if name in props {
          Shrink(props.Keys, stack, name);
          inner := stack + {name};
        }
        v, found', overflow := LookupRecursively(props, inner, Raw(props, name), found');
        if overflow {
          ScanStuck(props, stack, s, pos, resolved, before, m.value);
          return;
        }
        found' := found'[name := v];
      }
      assert Fetch(props, stack, name, before) == Done(v, found');
      ScanUnfold(props, stack, s, pos, resolved, before, m.value, m.value.end, v, Substitute(resolved, v), found');
      resolved := Substitute(resolved, v);
      pos := m.value.end;
      m := FindFrom(s, pos);
    }
    value := Some(resolved);
  }

  /** lookup(base), the top-level call with a fresh memo. */
  method Lookup(props: Store, base: string) returns (r: Result<string>)
    ensures r == Resolve(props, base)
  {
    var value, _, overflow := LookupRecursively(props, {}, Some(base), map[]);
    if overflow {
      r := Err(StackOverflow);
    } else {
      r := Ok(value.value);
    }
  }
}
