/**
 * The record template of `lmdb_queue_push <topic> <template>`, e.g.
 * "$remote_addr|$request_uri". At configuration time the template is
 * compiled into a byte format in which every `$name` is collapsed to one
 * sentinel byte 0x01, plus the list of names in order; for each request
 * the format is expanded with the variables' values. This module holds
 * the specification of both steps and a one-pass reference substitution
 * they are proved against; the loops that run them are in `Location`.
 */
module Template {
  import opened Common

  const DOLLAR: byte := 0x24     // '$'
  const SENTINEL: byte := 0x01   // '\1', stands for the next variable

  /** The bytes a variable name is made of: `[0-9A-Za-z_]`. */
  predicate IsIdentByte(b: byte) {
    || 0x30 <= b <= 0x39   // '0' .. '9'
    || 0x61 <= b <= 0x7A   // 'a' .. 'z'
    || 0x41 <= b <= 0x5A   // 'A' .. 'Z'
    || b == 0x5F           // '_'
  }

  /** A compiled template: the byte format and the variable names. */
  datatype Compiled = Compiled(format: Bytes, names: seq<Bytes>)

  function TotalLength(names: seq<Bytes>): nat {
    if names == [] then 0 else |names[0]| + TotalLength(names[1..])
  }

  // ---------------------------------------------------------------------
  // Compile

  /**
   * Each `$` becomes one sentinel and records the name made of the longest
   * run of identifier bytes after it (possibly empty); every other byte is
   * copied.
   */
  function Compile(t: Bytes): (c: Compiled)
    ensures |c.format| <= |t|
    decreases |t|
  {
    if t == [] then Compiled([], [])
    else if t[0] == DOLLAR then
      var n := SpanLength(t[1..], IsIdentByte);
      var rest := Compile(t[1 + n..]);
      Compiled([SENTINEL] + rest.format, [t[1..1 + n]] + rest.names)
    else
      var rest := Compile(t[1..]);
      Compiled([t[0]] + rest.format, rest.names)
  }

  /** The format is as long as the template minus the variable names. */
  lemma {:induction false} CompileLength(t: Bytes)
    ensures |Compile(t).format| + TotalLength(Compile(t).names) == |t|
    decreases |t|
  {
    if t == [] {
    } else if t[0] == DOLLAR {
      var n := SpanLength(t[1..], IsIdentByte);
      CompileLength(t[1 + n..]);
      var c := Compile(t);
      assert c.names[1..] == Compile(t[1 + n..]).names;
    } else {
      CompileLength(t[1..]);
    }
  }

  /**
   * The format holds one sentinel per variable besides the template's own
   * 0x01 bytes.
   */
  lemma {:induction false} CompileSentinels(t: Bytes)
    ensures Occurrences(Compile(t).format, SENTINEL) == |Compile(t).names| + Occurrences(t, SENTINEL)
    decreases |t|, 1
  {
    if t == [] {
    } else if t[0] == DOLLAR {
      VariableSentinels(t);
    } else {
      LiteralSentinels(t);
    }
  }

  /** `CompileSentinels` for a template that starts with a variable. */
  lemma {:induction false} VariableSentinels(t: Bytes)
    requires t != [] && t[0] == DOLLAR
    ensures Occurrences(Compile(t).format, SENTINEL) == |Compile(t).names| + Occurrences(t, SENTINEL)
    decreases |t|, 0
  {
    var n := SpanLength(t[1..], IsIdentByte);
    var name := t[1..1 + n];
    var tail := t[1 + n..];
    var rest := Compile(tail);
    CompileSentinels(tail);
    var c := Compile(t);
    assert c == Compiled([SENTINEL] + rest.format, [name] + rest.names);
    assert Occurrences(c.format, SENTINEL) == 1 + Occurrences(rest.format, SENTINEL) by {
      assert c.format[0] == SENTINEL && c.format[1..] == rest.format;
    }
    assert Occurrences(t, SENTINEL) == Occurrences(tail, SENTINEL) by {
      assert t[1..] == name + tail;
      OccurrencesAppend(name, tail, SENTINEL);
      IdentifierHasNoSentinel(t[1..], n);
      assert t[1..][..n] == name;
    }
  }

  /** `CompileSentinels` for a template that starts with a literal byte. */
  lemma {:induction false} LiteralSentinels(t: Bytes)
    requires t != [] && t[0] != DOLLAR
    ensures Occurrences(Compile(t).format, SENTINEL) == |Compile(t).names| + Occurrences(t, SENTINEL)
    decreases |t|, 0
  {
    var rest := Compile(t[1..]);
    CompileSentinels(t[1..]);
    assert Compile(t) == Compiled([t[0]] + rest.format, rest.names);
    OccurrencesAppend([t[0]], rest.format, SENTINEL);
    assert t == [t[0]] + t[1..];
    OccurrencesAppend([t[0]], t[1..], SENTINEL);
  }

  /** A variable name holds no 0x01 byte, which is not an identifier byte. */
  lemma IdentifierHasNoSentinel(s: Bytes, n: nat)
    requires n == SpanLength(s, IsIdentByte)
    ensures Occurrences(s[..n], SENTINEL) == 0
  {
    assert forall j :: 0 <= j < n ==> s[..n][j] == s[j];
    NoOccurrences(s[..n], SENTINEL);
  }

  /** Every variable name is made of identifier bytes only. */
  lemma {:induction false} CompileNames(t: Bytes)
    ensures forall k, j :: 0 <= k < |Compile(t).names| && 0 <= j < |Compile(t).names[k]| ==>
      IsIdentByte(Compile(t).names[k][j])
    decreases |t|
  {
    if t == [] {
    } else if t[0] == DOLLAR {
      var n := SpanLength(t[1..], IsIdentByte);
      CompileNames(t[1 + n..]);
      assert Compile(t).names[1..] == Compile(t[1 + n..]).names;
    } else {
      CompileNames(t[1..]);
    }
  }

  /** A template without 0x01 bytes compiles to one sentinel per variable. */
  lemma SentinelPerVariable(t: Bytes)
    requires NoSentinel(t)
    ensures Occurrences(Compile(t).format, SENTINEL) == |Compile(t).names|
  {
    CompileSentinels(t);
    NoOccurrences(t, SENTINEL);
  }

  // ---------------------------------------------------------------------
  // Variable indexes

  /**
   * `ngx_http_get_variable_index` for every name in order: the indexes when
   * every name resolves, `None` as soon as one does not.
   */
  function ResolveAll(names: seq<Bytes>, resolve: Bytes -> Option<nat>): (r: Option<seq<nat>>)
    ensures r.Some? <==> forall k :: 0 <= k < |names| ==> resolve(names[k]).Some?
    ensures r.Some? ==>
      |r.value| == |names| && forall k :: 0 <= k < |names| ==> r.value[k] == resolve(names[k]).value
  {
    if names == [] then Some([])
    else match resolve(names[0])
      case None => None
      case Some(i) =>
        match ResolveAll(names[1..], resolve)
        case None => None
        case Some(rest) => Some([i] + rest)
  }

  // ---------------------------------------------------------------------
  // Expand

  /** The bytes a variable contributes: its value, or nothing when absent. */
  function ValueBytes(v: Option<Bytes>): Bytes {
    match v
    case Some(b) => b
    case None => []
  }

  /**
   * How far the record's length moves away from the format's length for
   * one variable: the sentinel is replaced by `len` bytes, or dropped.
   */
  function Contribution(v: Option<Bytes>): int {
    match v
    case Some(b) => |b| - 1
    case None => -1
  }

  function Extra(vals: seq<Option<Bytes>>): (e: int)
    ensures e >= -|vals|
  {
    if vals == [] then 0 else Contribution(vals[0]) + Extra(vals[1..])
  }

  /** `Extra` can be accumulated front to back, as the handler does. */
  lemma {:induction false} ExtraSnoc(vals: seq<Option<Bytes>>, v: Option<Bytes>)
    ensures Extra(vals + [v]) == Extra(vals) + Contribution(v)
  {
    if vals != [] {
      assert (vals + [v])[1..] == vals[1..] + [v];
      ExtraSnoc(vals[1..], v);
    }
  }

  /**
   * The record for a format and the values of its variables, in order:
   * literal bytes are copied, the k-th sentinel is replaced by the k-th
   * value's bytes, or by nothing when that variable is absent. Its length
   * is the format's length adjusted by every variable's contribution,
   * which is the length the handler allocates.
   */
  function Expand(f: Bytes, vals: seq<Option<Bytes>>): (r: Bytes)
    requires Occurrences(f, SENTINEL) == |vals|
    ensures |r| == |f| + Extra(vals)
    decreases |f|
  {
    if f == [] then []
    else if f[0] == SENTINEL then ValueBytes(vals[0]) + Expand(f[1..], vals[1..])
    else [f[0]] + Expand(f[1..], vals)
  }

  // ---------------------------------------------------------------------
  // The reference substitution

  /**
   * One pass over the template: every `$name` is replaced by the bytes of
   * the name's value (nothing when it has none), every other byte is kept.
   */
  function Interpolate(t: Bytes, lookup: Bytes -> Option<Bytes>): Bytes
    decreases |t|
  {
    if t == [] then []
    else if t[0] == DOLLAR then
      var n := SpanLength(t[1..], IsIdentByte);
      ValueBytes(lookup(t[1..1 + n])) + Interpolate(t[1 + n..], lookup)
    else [t[0]] + Interpolate(t[1..], lookup)
  }

  ghost predicate NoSentinel(t: Bytes) {
    forall j :: 0 <= j < |t| ==> t[j] != SENTINEL
  }

  /**
   * Compiling a template and expanding the format with the names' values
   * is the one-pass substitution, for every template without 0x01 bytes.
   */
  lemma {:induction false} CompileThenExpand(t: Bytes, lookup: Bytes -> Option<Bytes>)
    requires NoSentinel(t)
    ensures Occurrences(Compile(t).format, SENTINEL) == |Apply(lookup, Compile(t).names)|
    ensures Expand(Compile(t).format, Apply(lookup, Compile(t).names)) == Interpolate(t, lookup)
    decreases |t|, 1
  {
    CompileSentinels(t);
    if t == [] {
    } else if t[0] == DOLLAR {
      VariableThenExpand(t, lookup);
    } else {
      LiteralThenExpand(t, lookup);
    }
  }

  /** `CompileThenExpand` for a template that starts with a variable. */
  lemma {:induction false} VariableThenExpand(t: Bytes, lookup: Bytes -> Option<Bytes>)
    requires NoSentinel(t) && t != [] && t[0] == DOLLAR
    ensures Occurrences(Compile(t).format, SENTINEL) == |Apply(lookup, Compile(t).names)|
    ensures Expand(Compile(t).format, Apply(lookup, Compile(t).names)) == Interpolate(t, lookup)
    decreases |t|, 0
  {
    CompileSentinels(t);
    var c := Compile(t);
    var vals := Apply(lookup, c.names);
    var n := SpanLength(t[1..], IsIdentByte);
    var tail := t[1 + n..];
    assert NoSentinel(tail) by {
      assert forall j :: 0 <= j < |tail| ==> tail[j] == t[1 + n + j];
    }
    CompileThenExpand(tail, lookup);
    var rest := Compile(tail);
    assert c.format[0] == SENTINEL && c.format[1..] == rest.format;
    assert vals[0] == lookup(t[1..1 + n]) && vals[1..] == Apply(lookup, rest.names);
    assert Expand(c.format, vals) == ValueBytes(vals[0]) + Expand(rest.format, vals[1..]);
  }

  /** `CompileThenExpand` for a template that starts with a literal byte. */
  lemma {:induction false} LiteralThenExpand(t: Bytes, lookup: Bytes -> Option<Bytes>)
    requires NoSentinel(t) && t != [] && t[0] != DOLLAR
    ensures Occurrences(Compile(t).format, SENTINEL) == |Apply(lookup, Compile(t).names)|
    ensures Expand(Compile(t).format, Apply(lookup, Compile(t).names)) == Interpolate(t, lookup)
    decreases |t|, 0
  {
    CompileSentinels(t);
    var c := Compile(t);
    var tail := t[1..];
    assert NoSentinel(tail) by {
      assert forall j :: 0 <= j < |tail| ==> tail[j] == t[1 + j];
    }
    CompileThenExpand(tail, lookup);
    assert c.format[1..] == Compile(tail).format;
    assert c.format[0] != SENTINEL;
  }

  /** The value of a name as the request sees it: through its index. */
  function ByName(resolve: Bytes -> Option<nat>, get: nat -> Option<Bytes>): Bytes -> Option<Bytes> {
    name => if resolve(name).Some? then get(resolve(name).value) else None
  }

  /**
   * The configuration step and the request step together: resolving the
   * names to indexes, then looking the indexes up and expanding the
   * format, substitutes every `$name` by its value.
   */
  lemma CompiledRecordInterpolates(t: Bytes, resolve: Bytes -> Option<nat>, get: nat -> Option<Bytes>)
    requires NoSentinel(t)
    requires ResolveAll(Compile(t).names, resolve).Some?
    ensures Occurrences(Compile(t).format, SENTINEL) == |ResolveAll(Compile(t).names, resolve).value|
    ensures Expand(Compile(t).format, Apply(get, ResolveAll(Compile(t).names, resolve).value))
         == Interpolate(t, ByName(resolve, get))
  {
    var names := Compile(t).names;
    var idxs := ResolveAll(names, resolve).value;
    assert Apply(get, idxs) == Apply(ByName(resolve, get), names);
    CompileThenExpand(t, ByName(resolve, get));
  }

  /**
   * The template "$a-$b" (bytes 24 61 2D 24 62) compiles to the format
   * 0x01 '-' 0x01 and the names "a" and "b".
   */
  lemma ExampleTemplateCompiles()
    ensures Compile([DOLLAR, 0x61, 0x2D, DOLLAR, 0x62]) == Compiled([SENTINEL, 0x2D, SENTINEL], [[0x61], [0x62]])
  {
    var t: Bytes := [DOLLAR, 0x61, 0x2D, DOLLAR, 0x62];
    var b := t[3..];
    assert b[1..] == [0x62] && b[2..] == [] && b[1..2] == [0x62];
    assert SpanLength(b[1..], IsIdentByte) == 1;
    assert Compile(b) == Compiled([SENTINEL], [[0x62]]);
    var dash := t[2..];
    assert dash[1..] == b;
    assert Compile(dash) == Compiled([0x2D, SENTINEL], [[0x62]]);
    assert t[1..][1..] == dash;
    assert SpanLength(t[1..], IsIdentByte) == 1;
    assert t[1..2] == [0x61];
  }

  /**
   * With a = "1" (byte 31) and b absent, that format expands to "1-": the
   * absent variable contributes nothing and the literal '-' is kept.
   */
  lemma AbsentVariableContributesNothing()
    ensures var f: Bytes := [SENTINEL, 0x2D, SENTINEL];
      && Occurrences(f, SENTINEL) == 2
      && Expand(f, [Some([0x31]), None]) == [0x31, 0x2D]
  {
    var f: Bytes := [SENTINEL, 0x2D, SENTINEL];
    assert f[1..] == [0x2D, SENTINEL] && f[1..][1..] == [SENTINEL] && f[1..][1..][1..] == [];
    assert Occurrences(f[1..][1..], SENTINEL) == 1;
  }
}
