/**
 * The arguments of the `lmdb_queue_topic <name> <size> <keep>` directive:
 * a chunk size written as a decimal number with a one-letter unit
 * (`m`/`M` for MiB, `g`/`G` for GiB) and a number of chunks to keep.
 * Parsing is straight-line arithmetic and checks, so it is modelled as
 * pure functions.
 */
module TopicOptions {
  import opened Common

  const MIB: nat := 0x10_0000          // 1024 * 1024
  const GIB: nat := 0x4000_0000        // 1024 * 1024 * 1024
  const MIN_CHUNK_SIZE: nat := 64 * MIB
  const MAX_CHUNK_SIZE: nat := 64 * GIB
  const MIN_CHUNKS_TO_KEEP: nat := 4
  /** `ULLONG_MAX`, what `strtoull` returns when the number does not fit. */
  const ULLONG_MAX: nat := 0xFFFF_FFFF_FFFF_FFFF
  /** `size_t` is 64 bits wide: arithmetic on it is modulo this. */
  const SIZE_MODULUS: nat := 0x1_0000_0000_0000_0000

  /** The options a topic's producer is created with (`TopicOpt`). */
  datatype TopicOpt = TopicOpt(chunkSize: nat, chunksToKeep: nat)

  /** The distinct reasons the directive handler logs before failing. */
  datatype TopicError =
    | SizeOverflow        // `strtoull` of the size saturated
    | InvalidUnit         // last byte of the size is not m, M, g or G
    | SizeOutOfRange      // scaled size outside [64 MiB, 64 GiB]
    | RetentionOverflow   // `strtoull` of the chunk count saturated
    | TooFewChunks        // fewer than 4 chunks to keep

  ghost predicate ValidOptions(opt: TopicOpt) {
    && MIN_CHUNK_SIZE <= opt.chunkSize <= MAX_CHUNK_SIZE
    && opt.chunksToKeep >= MIN_CHUNKS_TO_KEEP
  }

  // ---------------------------------------------------------------------
  // Decimal numbers

  predicate IsDigit(b: byte) {
    0x30 <= b <= 0x39   // '0' .. '9'
  }

  predicate AllDigits(d: Bytes) {
    forall j :: 0 <= j < |d| ==> IsDigit(d[j])
  }

  /** The leading run of decimal digits, which is all `strtoull` reads. */
  function LeadingDigits(s: Bytes): (d: Bytes)
    ensures AllDigits(d)
  {
    s[..SpanLength(s, IsDigit)]
  }

  /** The value of a run of decimal digits (0 for the empty run). */
  function DecimalValue(d: Bytes): nat
    requires AllDigits(d)
  {
    if d == [] then 0
    else 10 * DecimalValue(d[..|d| - 1]) + (d[|d| - 1] - 0x30) as int
  }

  /** `strtoull(s, NULL, 10)`: the leading number, saturated at `ULLONG_MAX`. */
  function StrToULL(s: Bytes): (v: nat)
    ensures v <= ULLONG_MAX
  {
    var n := DecimalValue(LeadingDigits(s));
    if n < ULLONG_MAX then n else ULLONG_MAX
  }

  /** Decimal notation of `n`, without leading zeros. */
  function Decimal(n: nat): (d: Bytes)
    ensures |d| > 0
  {
    if n < 10 then [(0x30 + n) as byte]
    else Decimal(n / 10) + [(0x30 + n % 10) as byte]
  }

  /** Writing a number in decimal and reading it back yields the number. */
  lemma {:induction false} DecimalRoundTrip(n: nat)
    ensures AllDigits(Decimal(n))
    ensures DecimalValue(Decimal(n)) == n
  {
    if n >= 10 {
      DecimalRoundTrip(n / 10);
      var d := Decimal(n);
      assert d[..|d| - 1] == Decimal(n / 10);
    }
  }

  /**
   * `strtoull` reads a decimal number back whole when a non-digit follows
   * it, and `Decimal` is the notation it reads.
   */
  lemma StrToULLOfDecimal(n: nat, rest: Bytes)
    requires n < ULLONG_MAX
    requires rest == [] || !IsDigit(rest[0])
    ensures LeadingDigits(Decimal(n) + rest) == Decimal(n)
    ensures StrToULL(Decimal(n) + rest) == n
  {
    DecimalRoundTrip(n);
    var s := Decimal(n) + rest;
    var m := |Decimal(n)|;
    assert forall j :: 0 <= j < m ==> s[j] == Decimal(n)[j];
    assert m < |s| ==> s[m] == rest[0];
    assert SpanLength(s, IsDigit) == m;
    assert s[..m] == Decimal(n);
  }

  // ---------------------------------------------------------------------
  // The chunk size

  /** The scale factor of a unit letter, or `None` for any other byte. */
  function UnitScale(u: byte): (scale: Option<nat>)
    ensures scale.Some? <==> u in {0x6D, 0x4D, 0x67, 0x47}
    ensures u in {0x6D, 0x4D} ==> scale == Some(MIB)   // 'm', 'M'
    ensures u in {0x67, 0x47} ==> scale == Some(GIB)   // 'g', 'G'
  {
    if u == 0x6D || u == 0x4D then Some(MIB)
    else if u == 0x67 || u == 0x47 then Some(GIB)
    else None
  }

  /**
   * The steps before the multiplication: the leading number (failing when
   * `strtoull` saturates) and the scale of the last byte.
   */
  function NumberAndScale(arg: Bytes): (r: Result<(nat, nat), TopicError>)
    ensures r.Ok? ==> r.value.0 < ULLONG_MAX && r.value.1 in {MIB, GIB}
    ensures r.Ok? ==>
      && |arg| > 0 && UnitScale(arg[|arg| - 1]).Some?
      && r.value == (DecimalValue(LeadingDigits(arg)), UnitScale(arg[|arg| - 1]).value)
    ensures r == Err(SizeOverflow) <==> StrToULL(arg) == ULLONG_MAX
    ensures r == Err(InvalidUnit) <==>
      StrToULL(arg) < ULLONG_MAX && (|arg| == 0 || UnitScale(arg[|arg| - 1]).None?)
  {
    var n := StrToULL(arg);
    if n == ULLONG_MAX then Err(SizeOverflow)
    // An empty argument leaves no last byte; see README.md.
    else if |arg| == 0 then Err(InvalidUnit)
    else match UnitScale(arg[|arg| - 1])
      case None => Err(InvalidUnit)
      case Some(scale) => Ok((n, scale))
  }

  /** The bounds check on the scaled size. */
  function CheckRange(size: nat): (r: Result<nat, TopicError>)
    ensures r.Ok? <==> MIN_CHUNK_SIZE <= size <= MAX_CHUNK_SIZE
    ensures r.Ok? ==> r.value == size
    ensures r.Err? ==> r.error == SizeOutOfRange
  {
    if size < MIN_CHUNK_SIZE || size > MAX_CHUNK_SIZE then Err(SizeOutOfRange)
    else Ok(size)
  }

  /**
   * The chunk size as intended: the leading number times the unit's scale,
   * in unbounded arithmetic, then the bounds check.
   */
  function ParseChunkSize(arg: Bytes): (r: Result<nat, TopicError>)
    ensures r.Ok? ==> MIN_CHUNK_SIZE <= r.value <= MAX_CHUNK_SIZE
    ensures r.Ok? ==>
      && |arg| > 0
      && UnitScale(arg[|arg| - 1]).Some?
      && r.value == DecimalValue(LeadingDigits(arg)) * UnitScale(arg[|arg| - 1]).value
    ensures |arg| > 0 && UnitScale(arg[|arg| - 1]).None? ==> r.Err?
    ensures r == Err(SizeOverflow) <==> StrToULL(arg) == ULLONG_MAX
    ensures r == Err(InvalidUnit) <==>
      StrToULL(arg) < ULLONG_MAX && (|arg| == 0 || UnitScale(arg[|arg| - 1]).None?)
    ensures r == Err(SizeOutOfRange) <==>
      && StrToULL(arg) < ULLONG_MAX && |arg| > 0 && UnitScale(arg[|arg| - 1]).Some?
      && !(MIN_CHUNK_SIZE <= DecimalValue(LeadingDigits(arg)) * UnitScale(arg[|arg| - 1]).value <= MAX_CHUNK_SIZE)
  {
    match NumberAndScale(arg)
    case Err(e) => Err(e)
    case Ok((n, scale)) => CheckRange(n * scale)
  }

  /**
   * The chunk size as the directive handler computes it: `chunkSize *=`
   * on a 64-bit `size_t`, which wraps before the bounds check sees it.
   */
  function ParseChunkSizeAsWritten(arg: Bytes): (r: Result<nat, TopicError>)
    ensures r.Ok? ==> MIN_CHUNK_SIZE <= r.value <= MAX_CHUNK_SIZE
  {
    match NumberAndScale(arg)
    case Err(e) => Err(e)
    case Ok((n, scale)) => CheckRange((n * scale) % SIZE_MODULUS)
  }

  /** Without wrap-around the two computations agree. */
  lemma AsWrittenAgreesWithoutWrap(arg: Bytes)
    requires StrToULL(arg) * GIB < SIZE_MODULUS
    ensures ParseChunkSizeAsWritten(arg) == ParseChunkSize(arg)
  {
    match NumberAndScale(arg)
    case Err(e) =>
    case Ok((n, scale)) =>
      assert n * scale <= n * GIB;
  }

  /**
   * A counterexample to the bounds check as written: "17179869248g" is
   * (2^34 + 64) GiB, far above 64 GiB, but the product wraps to exactly
   * 64 GiB and is accepted.
   */
  lemma WrappedChunkSizeAccepted()
    ensures var arg := Decimal(17179869248) + [0x67];
      && ParseChunkSizeAsWritten(arg) == Ok(MAX_CHUNK_SIZE)
      && ParseChunkSize(arg) == Err(SizeOutOfRange)
  {
    var n: nat := 17179869248;
    var arg := Decimal(n) + [0x67];
    StrToULLOfDecimal(n, [0x67]);
    assert arg[|arg| - 1] == 0x67;
    assert NumberAndScale(arg) == Ok((n, GIB));
    assert n * GIB == 0x1_0000_0010_0000_0000;   // 2^64 + 64 GiB
    assert 0x1_0000_0010_0000_0000 % SIZE_MODULUS == MAX_CHUNK_SIZE;
  }

  /**
   * Every size in [64 MiB, 64 GiB] that a unit can express is accepted
   * when written as a number followed by that unit.
   */
  lemma EveryInRangeSizeAccepted(n: nat, u: byte)
    requires UnitScale(u).Some?
    requires MIN_CHUNK_SIZE <= n * UnitScale(u).value <= MAX_CHUNK_SIZE
    ensures ParseChunkSize(Decimal(n) + [u]) == Ok(n * UnitScale(u).value)
  {
    var arg := Decimal(n) + [u];
    if UnitScale(u).value == MIB {
      assert n <= 65536;
    } else {
      assert n <= 64;
    }
    StrToULLOfDecimal(n, [u]);
    assert arg[|arg| - 1] == u;
    assert NumberAndScale(arg) == Ok((n, UnitScale(u).value));
  }

  // ---------------------------------------------------------------------
  // The number of chunks to keep

  function ParseChunksToKeep(arg: Bytes): (r: Result<nat, TopicError>)
    ensures r.Ok? ==>
      r.value >= MIN_CHUNKS_TO_KEEP && r.value == DecimalValue(LeadingDigits(arg))
    ensures r == Err(TooFewChunks) <==> DecimalValue(LeadingDigits(arg)) < MIN_CHUNKS_TO_KEEP
    ensures r == Err(RetentionOverflow) <==> DecimalValue(LeadingDigits(arg)) >= ULLONG_MAX
  {
    var n := StrToULL(arg);
    if n == ULLONG_MAX then Err(RetentionOverflow)
    else if n < MIN_CHUNKS_TO_KEEP then Err(TooFewChunks)
    else Ok(n)
  }

  /** Every count of at least 4 that `strtoull` can represent is accepted. */
  lemma EveryRetentionAccepted(k: nat, rest: Bytes)
    requires MIN_CHUNKS_TO_KEEP <= k < ULLONG_MAX
    requires rest == [] || !IsDigit(rest[0])
    ensures ParseChunksToKeep(Decimal(k) + rest) == Ok(k)
  {
    StrToULLOfDecimal(k, rest);
  }

  // ---------------------------------------------------------------------
  // Both arguments

  /**
   * The checks of the directive in the order the handler makes them: the
   * chunk size first, then the number of chunks to keep.
   */
  function ParseTopicOptions(sizeArg: Bytes, keepArg: Bytes): (r: Result<TopicOpt, TopicError>)
    ensures r.Ok? <==> ParseChunkSize(sizeArg).Ok? && ParseChunksToKeep(keepArg).Ok?
    ensures r.Ok? ==> ValidOptions(r.value)
    ensures r.Ok? ==>
      r.value == TopicOpt(ParseChunkSize(sizeArg).value, ParseChunksToKeep(keepArg).value)
    ensures ParseChunkSize(sizeArg).Err? ==> r == Err(ParseChunkSize(sizeArg).error)
    ensures ParseChunkSize(sizeArg).Ok? && ParseChunksToKeep(keepArg).Err? ==>
      r == Err(ParseChunksToKeep(keepArg).error)
  {
    match ParseChunkSize(sizeArg)
    case Err(e) => Err(e)
    case Ok(size) =>
      match ParseChunksToKeep(keepArg)
      case Err(e) => Err(e)
      case Ok(keep) => Ok(TopicOpt(size, keep))
  }
}
