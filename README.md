# Alluxio configuration store, modelled in Dafny

Alluxio keeps its run-time configuration in one class, `alluxio.Configuration`: a map from
property names to string values. The model covers these parts of it:

- **Initialisation (`init`).** It writes a default layer, an optional site layer and the
  system properties into the map, in that order, so later layers win key by key. It then
  derives the master address and applies the guard on the worker ports.
- **Updates.** `merge` and `set` overwrite entries. Each is followed by the check on the
  user file buffer size.
- **Placeholder resolution.** `lookup` and `lookupRecursively` expand `${name}` inside a
  value. The resolver:
  - matches the pattern `\$\{([^{}]*)\}` against the original string;
  - trims each name;
  - resolves each name at most once per top-level call and remembers the result in a memo;
  - replaces the *first remaining match* of the accumulating string by each non-null value,
    taken literally.
- **Typed accessors.** `get`, `containsKey`, `getInt`, `getLong`, `getBoolean`, `getList`,
  `getEnum` and `getBytes`, each with its own error path.

The modules follow the structure of the class:

- `Common`: optional values in place of null references, the accessor results, and the kinds
  of failure.
- `Keys`: the property names involved.
- `Text`: the Java and Guava string operations the class relies on.
- `Placeholder`: the resolver, as functions with the imperative `LookupRecursively` and
  `Lookup` methods proved equal to them.
- `PlaceholderProperties`: what resolution promises.
- `Accessors`: the read-only accessors.
- `AlluxioConfiguration`: the class `Configuration` with its `props` map, and the functions
  that specify its methods.
- `ConfigurationProperties`: what `init`, `merge` and `set` promise.

A Java exception is a `Fail` or `Err` value. After a thrown exception, the map is the one the
method had built when it threw.

**Unbounded recursion.** The source recurses without bound on a cyclic chain of placeholders,
because a name enters `found` only after its recursive call returns. The model keeps the set
of keys on the call stack. A call that re-enters one of them before it is memoised ends as
`Unbounded`, and `lookup` reports that as `Err(StackOverflow)`. Nothing in the model bounds
the depth; the set only makes the recursion well founded.

**getList and an empty delimiter.** One could read `getList` as refusing an empty delimiter
before anything else, but the code does not do that. Only a null delimiter is refused first.
An empty delimiter makes Guava's `Splitter.on` throw, and that happens inside the branch for a
present key. So an empty delimiter on an absent key reports the invalid key. The model follows
the code.

## Model

| member | source | states |
|---|---|---|
| Placeholder.FindFrom | core/common/src/main/java/alluxio/Configuration.java:68-71 | the match `Matcher.find` returns: the leftmost `${…}` without braces inside, at or after the position; None exactly when no match starts there |
| Placeholder.ReplaceFirst | core/common/src/main/java/alluxio/Configuration.java:449 | `resolved.replaceFirst(REGEX_STRING, quoteReplacement(value))`: the leftmost match replaced by the value, taken literally; no contract of its own, its behaviour is proved by RefMatches, TwoRefsExpand and FirstRemainingMatch |
| Placeholder.LookupRec | core/common/src/main/java/alluxio/Configuration.java:428-453 | a null base ends at once with null and the memo unchanged; a base that resolves gives a non-null string |
| Placeholder.Fetch | core/common/src/main/java/alluxio/Configuration.java:441-446 | one name of the loop: the memoised value, or the recursive lookup of `PROPERTIES_MAP.get(name)`, then memoised; re-entering a key still being resolved is the unbounded recursion. No contract of its own: ResolveRef, LookupRecGrows and CycleOverflows state what it does |
| Placeholder.Scan | core/common/src/main/java/alluxio/Configuration.java:438-450 | the `while (matcher.find())` loop over the original base with the accumulating string; no contract of its own. The helper lemmas ScanUnfold (one iteration) and ScanStuck (a fetch that never ends) unfold it for the proof of LookupRecursively; ScanUndefined and ScanReplays state what it computes |
| Placeholder.Resolve | core/common/src/main/java/alluxio/Configuration.java:417-419 | `lookup(base)`: the resolver started with an empty memo and no key on the stack, with unbounded recursion as StackOverflow; no contract of its own, its properties are the PlaceholderProperties rows below |
| Placeholder.LookupRecursively | core/common/src/main/java/alluxio/Configuration.java:428-453 | the while loop over the matches agrees with the recursive resolver: same value, same memo, and overflow exactly when the recursion is unbounded |
| Placeholder.Lookup | core/common/src/main/java/alluxio/Configuration.java:417-419 | the top-level call with an empty memo is `Resolve` |
| PlaceholderProperties.NoPlaceholderUnchanged | core/common/src/main/java/alluxio/Configuration.java:434-452 | a string without any match resolves to itself |
| PlaceholderProperties.DollarFreeUnchanged | core/common/src/main/java/alluxio/Configuration.java:434-452 | a string without `$` resolves to itself |
| PlaceholderProperties.UndefinedPlaceholdersKept | core/common/src/main/java/alluxio/Configuration.java:441-449 | when no placeholder names a defined key, the string stays as it is, placeholders included |
| PlaceholderProperties.ScanUndefined | core/common/src/main/java/alluxio/Configuration.java:438-450 | the loop over placeholders of undefined keys leaves the text alone and memoises only nulls |
| PlaceholderProperties.RefMatches | core/common/src/main/java/alluxio/Configuration.java:68-71 | `${n}` is exactly one match, its group is n, and replacing it gives the value |
| PlaceholderProperties.ResolveRef | core/common/src/main/java/alluxio/Configuration.java:441-449 | resolving `${n}` for a fresh defined n resolves n's raw value one level deeper, with n on the stack, and memoises the result |
| PlaceholderProperties.ChainDescent | core/common/src/main/java/alluxio/Configuration.java:441-443 | along a chain of references each level resolves to what the next level resolves to |
| PlaceholderProperties.ChainExpands | core/common/src/main/java/alluxio/Configuration.java:428-453 | an acyclic chain A → B → … whose last value has no placeholder is expanded all the way to that value |
| PlaceholderProperties.CycleOverflows | core/common/src/main/java/alluxio/Configuration.java:441-443 | a chain whose last value refers back to its first key never ends: StackOverflow |
| PlaceholderProperties.LookupRecGrows | core/common/src/main/java/alluxio/Configuration.java:441-443 | a lookup keeps every memoised value, adds only names that are not on the stack, and keeps the memo sound: a memoised null exactly for an undefined key |
| PlaceholderProperties.ScanReplays | core/common/src/main/java/alluxio/Configuration.java:439-449 | the loop's result is the replay of all matches with the final memo: one memoised value per name for all its occurrences |
| PlaceholderProperties.ResolveMemoised | core/common/src/main/java/alluxio/Configuration.java:417-453 | within one top-level call every placeholder name is memoised, a memoised null marks exactly an undefined key, and the result substitutes each occurrence with its name's memoised value |
| PlaceholderProperties.TwoRefsExpand | core/common/src/main/java/alluxio/Configuration.java:437-449 | `${x}` + sep + `${y}` resolves to x's value + sep + y's value when those hold no `$` |
| PlaceholderProperties.FirstRemainingMatch | core/common/src/main/java/alluxio/Configuration.java:447-449 | in `${z}${y}` with z undefined, y's value replaces the first remaining match, which is `${z}`, so the result is y's value followed by `${y}` |
| Text.ParseInt | core/common/src/main/java/alluxio/Configuration.java:240 | Integer.parseInt: an optional sign and decimal digits, accepted exactly when the number is in the int range |
| Text.ParseLong | core/common/src/main/java/alluxio/Configuration.java:259 | Long.parseLong: accepted exactly when the number is in the long range |
| Text.ParseDecimal | core/common/src/main/java/alluxio/Configuration.java:240 | the number `parseInt` (and `parseLong` at line 259) read before their range check: an optional sign and one or more decimal digits; no contract of its own, ParseFormatDecimal proves that it reads back every number written in decimal |
| Text.ParseIntFormat | core/common/src/main/java/alluxio/Configuration.java:240 | every int written in decimal is parsed back to itself |
| Text.JavaTrim | core/common/src/main/java/alluxio/Configuration.java:439 | `String.trim()` on the placeholder name: the code points up to U+0020 removed from both ends; its contract is Text.Strip's: the result is a contiguous middle slice of the input with only such characters cut off before and after it, no such character is left at either end, a string without them is kept, and the result is empty exactly when all are |
| Text.EqualsIgnoreCase | core/common/src/main/java/alluxio/Configuration.java:316-318 | `equalsIgnoreCase` (also behind `Boolean.parseBoolean` at line 143): same length and each pair of characters equal, equal in upper case, or equal in lower case of upper case; no contract of its own, EqualsTrueIgnoreCase and EqualsFalseIgnoreCase give the strings it accepts |
| Text.EqualsTrueIgnoreCase | core/common/src/main/java/alluxio/Configuration.java:316 | the strings equal to "true" ignoring case are exactly its sixteen case spellings |
| Text.EqualsFalseIgnoreCase | core/common/src/main/java/alluxio/Configuration.java:318 | the strings equal to "false" ignoring case are its case spellings, where U+017F counts as an s |
| Text.Split | core/common/src/main/java/alluxio/Configuration.java:340-341 | `Splitter.on(d).split`: the pieces join back to the input with d, none contains d, the first piece ends at the leftmost occurrence of d (one piece exactly when d does not occur), and every piece but the last is clear of d (no occurrence starts inside it or runs on into the d after it), so each cut is at the leftmost remaining occurrence |
| Text.Cleaned | core/common/src/main/java/alluxio/Configuration.java:340-341 | trimResults().omitEmptyStrings(): no more pieces come out than went in, and every piece left is non-empty with no Guava whitespace at either end (so trimming it again changes nothing) |
| Text.SplitJoin | core/common/src/main/java/alluxio/Configuration.java:340-341 | pieces joined by a non-empty delimiter split back into themselves when no occurrence of the delimiter starts inside any piece but the last (Text.Clear) and the last piece does not contain it |
| Text.ClearSingle | core/common/src/main/java/alluxio/Configuration.java:340-341 | for a one-character delimiter, a piece without that character meets the condition of SplitJoin |
| Text.CleanedSplitJoin | core/common/src/main/java/alluxio/Configuration.java:340-341 | trimmed non-empty pieces, under the same condition, survive join, split and clean unchanged, in order and with repeats |
| Accessors.Get | core/common/src/main/java/alluxio/Configuration.java:211-218 | an absent key fails with InvalidConfigurationKey; the only other failure is the resolver's StackOverflow; by the body, get succeeds exactly for a present key whose value resolves (the helper lemma GetSucceeds states it) |
| Accessors.ContainsKey | core/common/src/main/java/alluxio/Configuration.java:226-228 | `containsKey(key)`: the key is in the map; no contract of its own, ContainsKeyAgreesWithGet relates it to get |
| Accessors.GetLiteral | core/common/src/main/java/alluxio/Configuration.java:211-218 | a stored value without `$` is what get returns |
| Accessors.ContainsKeyAgreesWithGet | core/common/src/main/java/alluxio/Configuration.java:226-228 | containsKey holds exactly when get does not report an invalid key |
| Accessors.GetInt | core/common/src/main/java/alluxio/Configuration.java:236-247 | absent key → InvalidConfigurationKey; success exactly when the resolved value is a decimal in the int range, with that number; KeyNotInteger exactly when the resolved value does not parse; a failure of get on a present key (a placeholder cycle) passes through unchanged |
| Accessors.GetLong | core/common/src/main/java/alluxio/Configuration.java:255-266 | success exactly when the resolved value is a decimal in the long range; InvalidConfigurationKey exactly for an absent key or a value that does not parse; a failure of get on a present key passes through unchanged |
| Accessors.GetBoolean | core/common/src/main/java/alluxio/Configuration.java:312-326 | true iff the resolved value equals "true" ignoring case, false iff it equals "false", KeyNotBoolean otherwise; absent key → InvalidConfigurationKey; a failure of get on a present key passes through unchanged |
| Accessors.GetIntFormat | core/common/src/main/java/alluxio/Configuration.java:236-247 | a stored decimal int is read back by getInt |
| Accessors.GetLongFormat | core/common/src/main/java/alluxio/Configuration.java:255-266 | a stored decimal long is read back by getLong |
| Accessors.GetBooleanLiteral | core/common/src/main/java/alluxio/Configuration.java:312-326 | "true" and "false" are read back by getBoolean |
| Accessors.GetList | core/common/src/main/java/alluxio/Configuration.java:335-345 | null delimiter → NullArgument before anything else; absent key → InvalidConfigurationKey; empty delimiter on a present key → EmptySeparator; otherwise success, with trimmed non-empty pieces; which pieces, for any non-empty delimiter, is stated by GetListJoin and GetListPieces |
| Accessors.GetListJoin | core/common/src/main/java/alluxio/Configuration.java:335-345 | trimmed non-empty pieces joined by any non-empty delimiter are read back as exactly those pieces, in order, duplicates kept, when no occurrence of the delimiter starts inside a piece |
| Accessors.GetListPieces | core/common/src/main/java/alluxio/Configuration.java:335-345 | a value made of pieces joined by any non-empty delimiter, with no occurrence of it starting inside a piece, is read as the trimmed, non-empty pieces |
| Accessors.GetListUnresolved | core/common/src/main/java/alluxio/Configuration.java:338-341 | getList works on the raw value: `${n}` is returned as the one piece `${n}` even when n is defined |
| Accessors.IndexOfName | core/common/src/main/java/alluxio/Configuration.java:360 | the first position of the name among the constants, or None exactly when it is not among them |
| Accessors.GetEnum | core/common/src/main/java/alluxio/Configuration.java:355-361 | absent key → InvalidConfigurationKey; success exactly when the resolved value is a constant's exact name, giving that constant; NoEnumConstant with the value otherwise; a failure of get on a present key passes through unchanged |
| Accessors.GetBytes | core/common/src/main/java/alluxio/Configuration.java:369-379 | absent key → InvalidConfigurationKey; success exactly when the size parser reads the resolved value, with its number; KeyNotBytes exactly when it does not; a failure of get on a present key passes through unchanged |
| Accessors.LowBits31Fits | core/common/src/main/java/alluxio/Configuration.java:466 | `(v & Integer.MAX_VALUE) == v` holds exactly for 0 <= v <= 2^31 − 1 |
| Accessors.CheckUserFileBufferBytes | core/common/src/main/java/alluxio/Configuration.java:461-468 | passes exactly when the key is absent, or getBytes reads a size in [0, 2^31 − 1]; a getBytes failure is passed on; an out-of-range size fails with InvalidBufferBytes |
| AlluxioConfiguration.DefaultLayer | core/common/src/main/java/alluxio/Configuration.java:108-113 | the default layer with the master host name set to the local host name and both netty channels set to the default channel type; all other defaults kept |
| AlluxioConfiguration.Layered | core/common/src/main/java/alluxio/Configuration.java:134-139 | the three `putFromProperties` calls: default, then site when there is one, then the system properties (an empty layer when excluded); no contract of its own, LayeredPrecedence states the precedence |
| AlluxioConfiguration.ParseBoolean | core/common/src/main/java/alluxio/Configuration.java:143 | `Boolean.parseBoolean`: true exactly for a non-null value equal to "true" ignoring case; no contract of its own, used by InitMasterAddress |
| AlluxioConfiguration.MasterAddressValue | core/common/src/main/java/alluxio/Configuration.java:141-146 | the master address from the raw host name, port and ZooKeeper flag, a null rendered as "null"; no contract of its own, InitMasterAddress states it in terms of the layers |
| AlluxioConfiguration.Addressed | core/common/src/main/java/alluxio/Configuration.java:141-146 | the map after `PROPERTIES_MAP.put(MASTER_ADDRESS, …)`; no contract of its own, InitMasterAddress and InitPrecedence state what it holds |
| AlluxioConfiguration.FirstPortSet | core/common/src/main/java/alluxio/Configuration.java:154-159 | the first worker port present among the system properties, or None exactly when none is; the helper lemma FirstPortSetOrder spells out the order data, rpc, web |
| AlluxioConfiguration.Derive | core/common/src/main/java/alluxio/Configuration.java:147-163 | the end of init: the buffer check, the `getInt` of the workers-per-host limit, the port guard and the ports forced to "0"; no contract of its own, DeriveFrame, DeriveWorkerPorts and InitSucceeds state what it does |
| AlluxioConfiguration.InitSpec | core/common/src/main/java/alluxio/Configuration.java:101-164 | the map and outcome of init; a missing default file fails at once and leaves the map alone (the helper lemma InitDefaultsMissing unfolds that branch); no other contract of its own, InitPrecedence, InitPortsKept, InitMasterAddress, InitWorkerPorts and InitSucceeds state its properties |
| AlluxioConfiguration.Merged | core/common/src/main/java/alluxio/Configuration.java:178-186 | every key of the merged properties takes their value; every other key, and every key for a null map, keeps its own |
| AlluxioConfiguration.Configuration.constructor | core/common/src/main/java/alluxio/Configuration.java:73-74 | the map starts empty |
| AlluxioConfiguration.Configuration.PutFromProperties | core/common/src/main/java/alluxio/Configuration.java:166-170 | the loop puts every entry of the layer: the new map is the old one overwritten by the layer |
| AlluxioConfiguration.Configuration.Init | core/common/src/main/java/alluxio/Configuration.java:101-164 | the map and outcome after init are those of `InitSpec` on the map before |
| AlluxioConfiguration.Configuration.FinishInit | core/common/src/main/java/alluxio/Configuration.java:147-163 | the tail of init (buffer check, workers-per-host read, port guard, ports forced to "0") is `Derive` |
| AlluxioConfiguration.Configuration.Merge | core/common/src/main/java/alluxio/Configuration.java:178-186 | the map becomes `Merged` (unchanged for a null map) and the buffer check runs on the new map |
| AlluxioConfiguration.Configuration.Set | core/common/src/main/java/alluxio/Configuration.java:198-203 | a null key or value fails with NullArgument and changes nothing; otherwise only that key changes, to the value, and the buffer check runs on the new map |
| AlluxioConfiguration.Configuration.Get | core/common/src/main/java/alluxio/Configuration.java:211-218 | get on the object's map is `Accessors.Get` |
| ConfigurationProperties.LayeredPrecedence | core/common/src/main/java/alluxio/Configuration.java:134-139 | each key ends with the value of its highest layer: system (when included) over site over default over the earlier map; a missing site layer adds nothing |
| ConfigurationProperties.DeriveFrame | core/common/src/main/java/alluxio/Configuration.java:147-163 | the end of init changes only the three worker ports |
| ConfigurationProperties.InitPrecedence | core/common/src/main/java/alluxio/Configuration.java:101-164 | after init, every key except the master address and the worker ports has its highest layer's value |
| ConfigurationProperties.InitPortsKept | core/common/src/main/java/alluxio/Configuration.java:151-163 | the worker ports keep their highest layer's value whenever init does not force them to "0": a limit of at most 1, a failed buffer check, a failed getInt, or a worker port among the system properties |
| ConfigurationProperties.InitMasterAddress | core/common/src/main/java/alluxio/Configuration.java:141-146 | the master address is `alluxio-ft://` when the ZooKeeper flag equals "true" ignoring case, else `alluxio://`, then the highest layer's host name (never null), ":" and the port ("null" when unset) |
| ConfigurationProperties.InitWorkerPorts | core/common/src/main/java/alluxio/Configuration.java:149-163 | with more than one worker per host, init fails on the first worker port among the system properties, even when they were not included as a layer; otherwise the three ports become "0" and nothing else changes |
| ConfigurationProperties.DeriveWorkerPorts | core/common/src/main/java/alluxio/Configuration.java:149-163 | the same guard, stated on the map init has built |
| ConfigurationProperties.InitSucceeds | core/common/src/main/java/alluxio/Configuration.java:147-163 | init succeeds exactly when the buffer check passes, the workers-per-host limit reads as an int, and either the limit is at most 1 or no worker port is a system property |
| ConfigurationProperties.MergeIdempotent | core/common/src/main/java/alluxio/Configuration.java:178-186 | merging the same properties twice gives the same map as merging them once |
| ConfigurationProperties.SetThenGet | core/common/src/main/java/alluxio/Configuration.java:198-218 | after set(k, v) with v free of `$`, get(k) returns v |
| ConfigurationProperties.SetThenGetInt | core/common/src/main/java/alluxio/Configuration.java:198-247 | after set(k, Integer.toString(n)), getInt(k) returns n |
| ConfigurationProperties.SetUserFileBufferBytes | core/common/src/main/java/alluxio/Configuration.java:198-203 | setting the buffer size to a literal passes the check exactly when it parses to a size in [0, 2^31 − 1]; an unparsable size fails with KeyNotBytes, an out-of-range one with InvalidBufferBytes |

## Left out

- **Loading the property files.** Reading the default and site files and the site
  search-path handling (`SITE_CONF_DIR`, the comma-split path list) are file I/O. `Init`
  receives the loaded layers as maps; a missing default file is `None`.
- **Foreign calls as parameters.** `System.getProperties()`, `NetworkAddressUtils.getLocalHostName`
  and `ChannelType.defaultType()` are operating-system and network calls. They become the
  parameters `system`, `localHostName` and `channel` of `Init`.
- **`emptyInit`, `defaultInit` and the static initializer** only call `init` with fixed
  arguments. They are not separate members.
- **`getDouble` and `getFloat`**: floating-point parsing.
- **`getClass`**: reflection through `Class.forName`.
- **`toMap`**: a live read-only view, which is the `props` field itself here.
- **Logging calls.**
- **Concurrency.** The class is not thread-safe, and the concurrent map it uses is not part
  of the model.
- **Exception message texts.**
- **`FormatUtils.parseSpaceSize`** is not part of this model. It is the parameter `parse`,
  None where it throws.
- **`Enum.valueOf`** is modelled as a search of the enum's constant names, given in
  declaration order.
- **Finite stack depth.** The source's `StackOverflowError` is the recursion outcome
  `Unbounded`. A deep but acyclic chain that would overflow a real stack resolves in the
  model.
- **Keys.** Only the property names that the modelled code reads or writes appear. Their
  values come from Alluxio's `Constants` class, which is not part of this model; the proofs
  use only that the names differ.
- Text.ParseInt: accepts only ASCII digits, while `Integer.parseInt` also accepts other
  Unicode decimal digits.
- Text.ParseLong: accepts only ASCII digits, like Text.ParseInt.
- Text.EqualsIgnoreCase: folds only ASCII letters and U+017F, not all Unicode case pairs.
- Accessors.LowBits31Fits: states `v & Integer.MAX_VALUE` as the equal arithmetic value `v`
  modulo 2^31, rather than as bit operations on a 64-bit vector.
- AlluxioConfiguration.Configuration.Merge: Java's `merge` takes an untyped map and converts
  keys and values with `toString()`. The model takes a string map, so the conversions and
  their failures on null entries are left out.
