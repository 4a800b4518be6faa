/** The read side of the configuration class: containsKey, get and the typed getters,
    each a function of the property map as it is at the call, and the check on the
    user file buffer size that every update runs. */
module Accessors {
  import opened Common
  import Text
  import Keys
  import opened Placeholder
  import PlaceholderProperties

  /** containsKey(key). */
  predicate ContainsKey(props: Store, key: string) {
    key in props
  }

  /** get(key): the key's value with its placeholders resolved; an unknown key is an
      error. */
  function Get(props: Store, key: string): (r: Result<string>)
    ensures key !in props ==> r == Err(InvalidConfigurationKey(key))
    ensures r.Err? ==> r == Err(InvalidConfigurationKey(key)) || r == Err(StackOverflow)
  {
    if key !in props then Err(InvalidConfigurationKey(key)) else Resolve(props, props[key])
  }

  /** A stored value without '$' is what get returns. */
  lemma GetLiteral(props: Store, key: string)
    requires key in props && PlaceholderProperties.DollarFree(props[key])
    ensures Get(props, key) == Ok(props[key])
  {
    PlaceholderProperties.DollarFreeUnchanged(props, props[key]);
  }

  /** get(key) fails exactly for an unknown key and for a value whose placeholders
      recurse without end. */
  lemma GetSucceeds(props: Store, key: string)
    ensures Get(props, key).Ok? <==> key in props && Resolve(props, props[key]).Ok?
  {
  }

  /** containsKey(key) holds exactly when get(key) does not report an invalid key. */
  lemma ContainsKeyAgreesWithGet(props: Store, key: string)
    ensures ContainsKey(props, key) <==> Get(props, key) != Err(InvalidConfigurationKey(key))
  {
  }

  // ---------------------------------------------------------------------------
  // Typed getters

  /** getInt(key): the resolved value read by Integer.parseInt. */
  function GetInt(props: Store, key: string): (r: Result<Int32>)
    ensures key !in props ==> r == Err(InvalidConfigurationKey(key))
    ensures key in props && Get(props, key).Err? ==> r == Err(Get(props, key).error)
    ensures r.Ok? <==>
      && Get(props, key).Ok?
      && Text.ParseDecimal(Get(props, key).value).Some?
      && MinInt <= Text.ParseDecimal(Get(props, key).value).value <= MaxInt
    ensures r.Ok? ==> Some(r.value as int) == Text.ParseDecimal(Get(props, key).value)
    ensures r == Err(KeyNotInteger(key)) <==>
      && Get(props, key).Ok?
      && Text.ParseInt(Get(props, key).value).None?
  {
    match Get(props, key)
    case Err(e) => Err(e)
    case Ok(v) =>
      match Text.ParseInt(v)
      case None => Err(KeyNotInteger(key))
      case Some(n) => Ok(n)
  }

  /** getLong(key): the resolved value read by Long.parseLong. A value it rejects is
      reported as an invalid key, as for a key that is not there. */
  function GetLong(props: Store, key: string): (r: Result<Long>)
    ensures key in props && Get(props, key).Err? ==> r == Err(Get(props, key).error)
    ensures r.Ok? <==>
      && Get(props, key).Ok?
      && Text.ParseDecimal(Get(props, key).value).Some?
      && MinLong <= Text.ParseDecimal(Get(props, key).value).value <= MaxLong
    ensures r.Ok? ==> Some(r.value as int) == Text.ParseDecimal(Get(props, key).value)
    ensures r == Err(InvalidConfigurationKey(key)) <==>
      || key !in props
      || (Get(props, key).Ok? && Text.ParseLong(Get(props, key).value).None?)
  {
    match Get(props, key)
    case Err(e) => Err(e)
    case Ok(v) =>
      match Text.ParseLong(v)
      case None => Err(InvalidConfigurationKey(key))
      case Some(n) => Ok(n)
  }

  /** getBoolean(key): "true" or "false", compared ignoring case. */
  function GetBoolean(props: Store, key: string): (r: Result<bool>)
    ensures key !in props ==> r == Err(InvalidConfigurationKey(key))
    ensures key in props && Get(props, key).Err? ==> r == Err(Get(props, key).error)
    ensures r == Ok(true) <==> Get(props, key).Ok? && Text.EqualsIgnoreCase(Get(props, key).value, "true")
    ensures r == Ok(false) <==> Get(props, key).Ok? && Text.EqualsIgnoreCase(Get(props, key).value, "false")
    ensures r == Err(KeyNotBoolean(key)) <==>
      && Get(props, key).Ok?
      && !Text.EqualsIgnoreCase(Get(props, key).value, "true")
      && !Text.EqualsIgnoreCase(Get(props, key).value, "false")
  {
    match Get(props, key)
    case Err(e) => Err(e)
    case Ok(v) =>
      if Text.EqualsIgnoreCase(v, "true") then Ok(true)
      else if Text.EqualsIgnoreCase(v, "false") then Ok(false)
      else Err(KeyNotBoolean(key))
  }

  /** A stored int written in decimal is read back by getInt. */
  lemma GetIntFormat(props: Store, key: string, n: Int32)
    requires key in props && props[key] == Text.FormatDecimal(n)
    ensures GetInt(props, key) == Ok(n)
  {
    FormatDollarFree(n);
    GetLiteral(props, key);
    Text.ParseIntFormat(n);
  }

  /** A stored long written in decimal is read back by getLong. */
  lemma GetLongFormat(props: Store, key: string, n: Long)
    requires key in props && props[key] == Text.FormatDecimal(n)
    ensures GetLong(props, key) == Ok(n)
  {
    FormatDollarFree(n);
    GetLiteral(props, key);
    Text.ParseFormatDecimal(n);
  }

  /** A decimal number holds no '$'. */
  lemma FormatDollarFree(n: int)
    ensures PlaceholderProperties.DollarFree(Text.FormatDecimal(n))
  {
    var f := Text.FormatNat(if n < 0 then -n else n);
    assert forall i :: 0 <= i < |f| ==> Text.IsDigit(f[i]);
    if n < 0 {
      var s := Text.FormatDecimal(n);
      assert s == "-" + f;
      assert forall i :: 1 <= i < |s| ==> s[i] == f[i - 1];
    }
  }

  /** getBoolean reads back the spellings Boolean.toString gives. */
  lemma GetBooleanLiteral(props: Store, key: string, b: bool)
    requires key in props && props[key] == (if b then "true" else "false")
    ensures GetBoolean(props, key) == Ok(b)
  {
    GetLiteral(props, key);
    Text.EqualsTrueIgnoreCase(props[key]);
    Text.EqualsFalseIgnoreCase(props[key]);
  }

  // ---------------------------------------------------------------------------
  // Lists

  /** getList(key, delimiter): the RAW value (placeholders are not resolved) split on the
      delimiter, each piece trimmed and the empty pieces dropped. A null delimiter is
      refused before the key is looked at; an empty one makes Guava's Splitter throw, which
      happens only once the key is known to be there. */
  function GetList(props: Store, key: string, delimiter: Option<string>): (r: Result<seq<string>>)
    ensures delimiter.None? ==> r == Err(NullArgument)
    ensures delimiter.Some? && key !in props ==> r == Err(InvalidConfigurationKey(key))
    ensures delimiter.Some? && key in props && delimiter.value == "" ==> r == Err(EmptySeparator)
    ensures r.Ok? <==> delimiter.Some? && delimiter.value != "" && key in props
    ensures r.Ok? ==> forall k :: 0 <= k < |r.value| ==> Text.Tidy(r.value[k])
  {
    if delimiter.None? then Err(NullArgument)
    else if key !in props then Err(InvalidConfigurationKey(key))
    else if delimiter.value == "" then Err(EmptySeparator)
    else Ok(Text.Cleaned(Text.Split(props[key], delimiter.value)))
  }

  /** A value written as trimmed, non-empty pieces joined by a delimiter is read back by
      getList as exactly those pieces, in order and with repetitions, when no occurrence
      of the delimiter starts inside a piece (Text.Clear; for the last piece, Text.Free). */
  lemma GetListJoin(props: Store, key: string, pieces: seq<string>, d: string)
    requires |d| > 0
    requires forall k :: 0 <= k < |pieces| ==> Text.Tidy(pieces[k])
    requires forall k :: 0 <= k < |pieces| - 1 ==> Text.Clear(pieces[k], d)
    requires |pieces| > 0 ==> Text.Free(pieces[|pieces| - 1], d)
    requires key in props && props[key] == Text.Join(pieces, d)
    ensures GetList(props, key, Some(d)) == Ok(pieces)
  {
    Text.CleanedSplitJoin(pieces, d);
  }

  /** A value made of pieces joined by a delimiter is read by getList as those pieces,
      trimmed, with the empty ones left out, when no occurrence of the delimiter starts
      inside a piece. */
  lemma GetListPieces(props: Store, key: string, pieces: seq<string>, d: string)
    requires |d| > 0 && |pieces| > 0
    requires forall k :: 0 <= k < |pieces| - 1 ==> Text.Clear(pieces[k], d)
    requires Text.Free(pieces[|pieces| - 1], d)
    requires key in props && props[key] == Text.Join(pieces, d)
    ensures GetList(props, key, Some(d)) == Ok(Text.Cleaned(pieces))
  {
    Text.SplitJoin(pieces, d);
  }

  /** getList splits the stored text, with its placeholders left unresolved: a value
      "${n}" is read as that one piece even when n is defined. */
  lemma GetListUnresolved(props: Store, key: string, n: string)
    requires n in props && forall j :: 0 <= j < |n| ==> n[j] != ','
    requires key in props && props[key] == PlaceholderProperties.Ref(n)
    ensures GetList(props, key, Some(",")) == Ok([PlaceholderProperties.Ref(n)])
  {
    var s := PlaceholderProperties.Ref(n);
    RefPiece(n, ',');
    Text.ClearSingle(s, ',');
    assert Text.Join([s], ",") == s;
    GetListJoin(props, key, [s], ",");
  }

  /** "${n}" is a trimmed piece free of any separator n does not contain. */
  lemma RefPiece(n: string, d: char)
    requires d != '$' && d != '{' && d != '}'
    requires forall j :: 0 <= j < |n| ==> n[j] != d
    ensures var s := PlaceholderProperties.Ref(n);
      Text.Tidy(s) && forall j :: 0 <= j < |s| ==> s[j] != d
  {
    var s := PlaceholderProperties.Ref(n);
    assert forall j :: 2 <= j < |s| - 1 ==> s[j] == n[j - 2];
    assert !Text.IsGuavaWhitespace(s[0]) && !Text.IsGuavaWhitespace(s[|s| - 1]);
  }

  // ---------------------------------------------------------------------------
  // Enumerations

  /** The position of the first name in names equal to v. */
  function IndexOfName(names: seq<string>, v: string): (r: Option<nat>)
    ensures r.Some? ==> r.value < |names| && names[r.value] == v
    ensures r.Some? ==> forall j :: 0 <= j < r.value ==> names[j] != v
    ensures r.None? <==> v !in names
    decreases |names|
  {
    if names == [] then None
    else if names[0] == v then Some(0)
    else
      match IndexOfName(names[1..], v)
      case None => None
      case Some(i) => Some(i + 1)
  }

  /** getEnum(key, enumType), with the enum type given by the names of its constants in
      declaration order: the constant whose name is the resolved value, exactly as
      written (Enum.valueOf neither trims nor ignores case). */
  function GetEnum(props: Store, key: string, constants: seq<string>): (r: Result<nat>)
    ensures key !in props ==> r == Err(InvalidConfigurationKey(key))
    ensures key in props && Get(props, key).Err? ==> r == Err(Get(props, key).error)
    ensures r.Ok? ==> Get(props, key).Ok? && r.value < |constants| && constants[r.value] == Get(props, key).value
    ensures r.Ok? ==> forall j :: 0 <= j < r.value ==> constants[j] != Get(props, key).value
    ensures r.Ok? <==> Get(props, key).Ok? && Get(props, key).value in constants
    ensures Get(props, key).Ok? && Get(props, key).value !in constants ==>
      r == Err(NoEnumConstant(Get(props, key).value))
  {
    if key !in props then Err(InvalidConfigurationKey(key))
    else
      match Get(props, key)
      case Err(e) => Err(e)
      case Ok(v) =>
        match IndexOfName(constants, v)
        case None => Err(NoEnumConstant(v))
        case Some(i) => Ok(i)
  }

  // ---------------------------------------------------------------------------
  // Sizes in bytes

  /** getBytes(key): the resolved value read by FormatUtils.parseSpaceSize, which is given
      as parse (None where it throws). */
  function GetBytes(props: Store, parse: string -> Option<Long>, key: string): (r: Result<Long>)
    ensures key !in props ==> r == Err(InvalidConfigurationKey(key))
    ensures key in props && Get(props, key).Err? ==> r == Err(Get(props, key).error)
    ensures r.Ok? <==> Get(props, key).Ok? && parse(Get(props, key).value).Some?
    ensures r.Ok? ==> r.value == parse(Get(props, key).value).value
    ensures r == Err(KeyNotBytes(key)) <==> Get(props, key).Ok? && parse(Get(props, key).value).None?
  {
    if key !in props then Err(InvalidConfigurationKey(key))
    else
      match Get(props, key)
      case Err(e) => Err(e)
      case Ok(v) =>
        match parse(v)
        case None => Err(KeyNotBytes(key))
        case Some(n) => Ok(n)
  }

  /** v & Integer.MAX_VALUE: the low 31 bits of v's two's complement, which as a number is
      the non-negative remainder of v modulo 2^31. */
  function LowBits31(v: Long): int {
    v % 0x8000_0000
  }

  /** The mask leaves v unchanged exactly when v is a non-negative int. */
  lemma LowBits31Fits(v: Long)
    ensures LowBits31(v) == v <==> 0 <= v <= MaxInt
  {
  }

  /** checkUserFileBufferBytes(): nothing to check without the key; otherwise the size must
      be read by getBytes and fit in a non-negative int. */
  function CheckUserFileBufferBytes(props: Store, parse: string -> Option<Long>): (r: Status)
    ensures Keys.UserFileBufferBytes !in props ==> r == Pass
    ensures r == Pass <==>
      || Keys.UserFileBufferBytes !in props
      || (&& GetBytes(props, parse, Keys.UserFileBufferBytes).Ok?
          && 0 <= GetBytes(props, parse, Keys.UserFileBufferBytes).value <= MaxInt)
    ensures Keys.UserFileBufferBytes in props && GetBytes(props, parse, Keys.UserFileBufferBytes).Err? ==>
      r == Fail(GetBytes(props, parse, Keys.UserFileBufferBytes).error)
    ensures GetBytes(props, parse, Keys.UserFileBufferBytes).Ok? && r.Fail? ==>
      r == Fail(InvalidBufferBytes(GetBytes(props, parse, Keys.UserFileBufferBytes).value))
  {
    if !ContainsKey(props, Keys.UserFileBufferBytes) then Pass
    else
      match GetBytes(props, parse, Keys.UserFileBufferBytes)
      case Err(e) => Fail(e)
      case Ok(v) =>
        LowBits31Fits(v);
        if LowBits31(v) == v then Pass else Fail(InvalidBufferBytes(v))
  }
}
