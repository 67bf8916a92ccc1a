/**
 * The per-location configuration of the module and the two places that
 * use it: the `lmdb_queue_push <topic> <template>` directive, which binds
 * the location to a topic's producer and compiles the template into the
 * fixed 8 KiB format buffer, and the log-phase handler, which renders one
 * record per request from that format and the request's variables.
 */
module Location {
  import opened Common
  import opened Template
  import opened Registry

  /** Size of the `data_format` buffer. */
  const FORMAT_CAPACITY: nat := 8192

  /** Why the push directive fails. */
  datatype BindError =
    | UnknownTopic      // no `lmdb_queue_topic` declared that name
    | InvalidVariable   // `ngx_http_get_variable_index` refused a name

  class LocationConf {
    var producer: Producer?
    const dataFormat: array<byte>
    var dataFormatLen: nat
    /** The variable indexes, one per sentinel of the format. */
    var vars: seq<nat>

    ghost predicate Valid()
      reads this
    {
      dataFormat.Length == FORMAT_CAPACITY && dataFormatLen <= dataFormat.Length
    }

    /** The compiled format: the used prefix of the buffer. */
    ghost function Format(): Bytes
      reads this, dataFormat
      requires Valid()
    {
      dataFormat[..dataFormatLen]
    }

    /** A zeroed configuration: bound to no producer, empty format. */
    constructor ()
      ensures Valid() && fresh(dataFormat)
      ensures producer == null && dataFormatLen == 0 && vars == []
    {
      producer := null;
      dataFormat := new byte[FORMAT_CAPACITY];
      dataFormatLen := 0;
      vars := [];
    }

    /**
     * `lmdb_queue_push <topic> <template>`. An unknown topic fails before
     * anything is touched. Otherwise the template is compiled byte by byte
     * into the buffer; a name the variable table refuses stops the
     * compilation with an error, leaving the binding, the format length and
     * the indexes as they were (the buffer may already be overwritten). On
     * success the location is bound to the topic's producer, the buffer
     * holds the compiled format and `vars` the names' indexes in order.
     */
    method BindPush(registry: TopicRegistry, topic: Bytes, template: Bytes, resolve: Bytes -> Option<nat>)
      returns (r: Result<(), BindError>)
      requires Valid()
      requires topic in registry.producers ==> |Compile(template).format| <= FORMAT_CAPACITY
      modifies this, dataFormat
      ensures Valid()
      ensures r == Err(UnknownTopic) <==> topic !in registry.producers
      ensures topic !in registry.producers ==> unchanged(this) && unchanged(dataFormat)
      ensures r == Err(InvalidVariable) <==>
        topic in registry.producers && ResolveAll(Compile(template).names, resolve).None?
      ensures r.Err? ==>
        producer == old(producer) && dataFormatLen == old(dataFormatLen) && vars == old(vars)
      ensures r.Ok? ==>
        && producer == registry.producers[topic]
        && Format() == Compile(template).format
        && ResolveAll(Compile(template).names, resolve) == Some(vars)
    {
      var found := registry.Find(topic);
      if found.None? {
        return Err(UnknownTopic);
      }
      var compiled := CompileTemplate(template, resolve, dataFormat);
      if compiled.None? {
        return Err(InvalidVariable);
      }
      dataFormatLen := compiled.value.0;
      producer := found.value;
      vars := compiled.value.1;
      return Ok(());
    }

    /**
     * The log-phase handler up to the hand-over to the producer: nothing
     * when the location is not bound; otherwise the record that expands
     * the format with the current request's variables, looked up by index.
     * The handler relies on the format holding exactly one sentinel per
     * index.
     */
    method Handle(get: nat -> Option<Bytes>) returns (record: Option<Bytes>)
      requires Valid() && Occurrences(Format(), SENTINEL) == |vars|
      ensures producer == null ==> record == None
      ensures producer != null ==> record == Some(Expand(Format(), Apply(get, vars)))
      ensures producer != null ==> |record.value| == dataFormatLen + Extra(Apply(get, vars))
    {
      if producer == null {
        return None;
      }
      var vals, resLen := CollectValues(vars, get, dataFormatLen);
      var buf := RenderRecord(dataFormat, dataFormatLen, vals, resLen);
      return Some(buf[..]);
    }
  }

  // -----------------------------------------------------------------------
  // The compile loop of the push directive

  /**
   * The loop of the push directive: walk the template, writing a sentinel
   * for each `$` and copying every other byte into `buf`, and look up the
   * index of each variable name as it is met. Fails as soon as a name has
   * no index; otherwise gives the format length and the indexes in order.
   */
  method CompileTemplate(template: Bytes, resolve: Bytes -> Option<nat>, buf: array<byte>)
    returns (r: Option<(nat, seq<nat>)>)
    requires |Compile(template).format| <= buf.Length
    modifies buf
    ensures r.Some? <==> ResolveAll(Compile(template).names, resolve).Some?
    ensures r.Some? ==>
      && r.value.0 <= buf.Length
      && buf[..r.value.0] == Compile(template).format
      && ResolveAll(Compile(template).names, resolve) == Some(r.value.1)
  {
    var idxs: seq<nat> := [];
    ghost var names: seq<Bytes> := [];
    var out: nat := 0;
    var s: nat := 0;
    assert template[0..] == template;
    while s < |template|
      invariant s <= |template| && out <= buf.Length
      invariant CompiledSoFar(template, s, buf[..out], names)
      invariant ResolveAll(names, resolve) == Some(idxs)
      decreases |template| - s
    {
      var ok;
      s, out, names, idxs, ok := CompileStep(template, resolve, buf, s, out, names, idxs);
      if !ok {
        return None;
      }
    }
    CompiledAll(template, buf[..out], names);
    return Some((out, idxs));
  }

  /**
   * One pass of the loop body: a `$` and its name when the template is at
   * one, then one other byte when one follows. Fails when the name has no
   * index.
   */
  method CompileStep(template: Bytes, resolve: Bytes -> Option<nat>, buf: array<byte>,
                     s: nat, out: nat, ghost names: seq<Bytes>, idxs: seq<nat>)
    returns (s': nat, out': nat, ghost names': seq<Bytes>, idxs': seq<nat>, ok: bool)
    requires s < |template| && out <= buf.Length
    requires |Compile(template).format| <= buf.Length
    requires CompiledSoFar(template, s, buf[..out], names)
    requires ResolveAll(names, resolve) == Some(idxs)
    modifies buf
    ensures !ok ==> ResolveAll(Compile(template).names, resolve).None?
    ensures ok ==>
      && s < s' <= |template| && out' <= buf.Length
      && CompiledSoFar(template, s', buf[..out'], names')
      && ResolveAll(names', resolve) == Some(idxs')
  {
    s', out', names', idxs' := s, out, names, idxs;
    if template[s'] == DOLLAR {
      var name, idx;
      s', out', name, idx := CompileVariable(template, resolve, buf, s', out', names');
      if idx.None? {
        return s', out', names', idxs', false;
      }
      ResolveSnoc(names', name, idxs', idx.value, resolve);
      idxs' := idxs' + [idx.value];
      names' := names' + [name];
    }
    if s' < |template| && template[s'] != DOLLAR {
      out' := CompileLiteral(template, buf, s', out', names');
      s' := s' + 1;
    }
    ok := true;
  }

  /** Any byte other than `$` is copied to the format. */
  method CompileLiteral(template: Bytes, buf: array<byte>, s: nat, out: nat, ghost names: seq<Bytes>)
    returns (nextOut: nat)
    requires s < |template| && template[s] != DOLLAR && out <= buf.Length
    requires |Compile(template).format| <= buf.Length
    requires CompiledSoFar(template, s, buf[..out], names)
    modifies buf
    ensures nextOut == out + 1 <= buf.Length
    ensures CompiledSoFar(template, s + 1, buf[..nextOut], names)
  {
    ghost var done := buf[..out];
    RoomLeft(template, s, done, names);
    LiteralAdvance(template, s, done, names);
    buf[out] := template[s];
    nextOut := out + 1;
    assert buf[..nextOut] == done + [template[s]];
  }

  /** Once the whole template is consumed, the loop has produced all of it. */
  lemma CompiledAll(t: Bytes, done: Bytes, names: seq<Bytes>)
    requires CompiledSoFar(t, |t|, done, names)
    ensures done == Compile(t).format && names == Compile(t).names
  {
    assert t[|t|..] == [];
    assert Compile(t[|t|..]) == Compiled([], []);
  }

  /**
   * One `$` of the template: write the sentinel, scan the name after it and
   * look up the name's index.
   */
  method CompileVariable(template: Bytes, resolve: Bytes -> Option<nat>, buf: array<byte>,
                         s: nat, out: nat, ghost names: seq<Bytes>)
    returns (next: nat, nextOut: nat, name: Bytes, idx: Option<nat>)
    requires s < |template| && template[s] == DOLLAR && out <= buf.Length
    requires |Compile(template).format| <= buf.Length
    requires CompiledSoFar(template, s, buf[..out], names)
    modifies buf
    ensures s < next <= |template| && nextOut == out + 1 <= buf.Length
    ensures name == template[s + 1..next] && idx == resolve(name)
    ensures CompiledSoFar(template, next, buf[..nextOut], names + [name])
    ensures |names| < |Compile(template).names| && Compile(template).names[|names|] == name
  {
    ghost var done := buf[..out];
    RoomLeft(template, s, done, names);
    buf[out] := SENTINEL;
    nextOut := out + 1;
    assert buf[..nextOut] == done + [SENTINEL];
    next := ScanName(template, s + 1);
    name := template[s + 1..next];
    VariableAdvance(template, s, next, done, names);
    assert (names + [name])[|names|] == name;
    idx := resolve(name);
  }

  /**
   * The scan after a `$`: the name runs up to the first byte that is not
   * an identifier byte, or to the end of the template.
   */
  method ScanName(t: Bytes, start: nat) returns (end: nat)
    requires start <= |t|
    ensures start <= end <= |t|
    ensures forall j :: start <= j < end ==> IsIdentByte(t[j])
    ensures end == |t| || !IsIdentByte(t[end])
  {
    end := start;
    while end < |t| && IsIdentByte(t[end])
      invariant start <= end <= |t|
      invariant forall j :: start <= j < end ==> IsIdentByte(t[j])
    {
      end := end + 1;
    }
  }

  /**
   * After consuming `t[..s]`, the loop has written `done` and recorded
   * `names`, and compiling the rest of the template supplies the remainder
   * of the whole format and name list.
   */
  ghost predicate CompiledSoFar(t: Bytes, s: nat, done: Bytes, names: seq<Bytes>) {
    && s <= |t|
    && done + Compile(t[s..]).format == Compile(t).format
    && names + Compile(t[s..]).names == Compile(t).names
  }

  /** While template is left, so is room in the format. */
  lemma RoomLeft(t: Bytes, s: nat, done: Bytes, names: seq<Bytes>)
    requires CompiledSoFar(t, s, done, names) && s < |t|
    ensures |done| < |Compile(t).format|
  {
    assert t[s..][0] == t[s];
  }

  /** A `$` and the name after it: one sentinel and one recorded name. */
  lemma VariableAdvance(t: Bytes, s: nat, end: nat, done: Bytes, names: seq<Bytes>)
    requires CompiledSoFar(t, s, done, names)
    requires s < end <= |t| && t[s] == DOLLAR
    requires forall j :: s + 1 <= j < end ==> IsIdentByte(t[j])
    requires end == |t| || !IsIdentByte(t[end])
    ensures CompiledSoFar(t, end, done + [SENTINEL], names + [t[s + 1..end]])
  {
    var here := t[s..];
    var n := SpanLength(here[1..], IsIdentByte);
    assert forall j :: 0 <= j < |here[1..]| ==> here[1..][j] == t[s + 1 + j];
    assert n == end - s - 1;
    assert here[1 + n..] == t[end..];
    assert here[1..1 + n] == t[s + 1..end];
    var rest := Compile(t[end..]);
    assert Compile(here) == Compiled([SENTINEL] + rest.format, [t[s + 1..end]] + rest.names);
    assert done + ([SENTINEL] + rest.format) == (done + [SENTINEL]) + rest.format;
    assert names + ([t[s + 1..end]] + rest.names) == (names + [t[s + 1..end]]) + rest.names;
  }

  /** Any other byte is copied. */
  lemma LiteralAdvance(t: Bytes, s: nat, done: Bytes, names: seq<Bytes>)
    requires CompiledSoFar(t, s, done, names) && s < |t| && t[s] != DOLLAR
    ensures CompiledSoFar(t, s + 1, done + [t[s]], names)
  {
    assert t[s..][1..] == t[s + 1..];
    var rest := Compile(t[s + 1..]);
    assert done + ([t[s]] + rest.format) == (done + [t[s]]) + rest.format;
  }

  /** Resolving one more name extends the indexes by its index. */
  lemma ResolveSnoc(names: seq<Bytes>, name: Bytes, idxs: seq<nat>, i: nat, resolve: Bytes -> Option<nat>)
    requires ResolveAll(names, resolve) == Some(idxs) && resolve(name) == Some(i)
    ensures ResolveAll(names + [name], resolve) == Some(idxs + [i])
  {
    var all := names + [name];
    assert forall k :: 0 <= k < |all| ==> all[k] == if k < |names| then names[k] else name;
    assert ResolveAll(all, resolve).Some?;
    assert ResolveAll(all, resolve).value == idxs + [i];
  }

  // -----------------------------------------------------------------------
  // The two loops of the handler

  /**
   * After walking `f[..p]` and using `k` values, the loop has written
   * `done`, and expanding the rest of the format with the remaining values
   * supplies the remainder of the record.
   */
  ghost predicate RenderedSoFar(f: Bytes, vals: seq<Option<Bytes>>, p: nat, k: nat, done: Bytes)
    requires Occurrences(f, SENTINEL) == |vals|
  {
    && p <= |f| && k <= |vals|
    && Occurrences(f[p..], SENTINEL) == |vals| - k
    && done + Expand(f[p..], vals[k..]) == Expand(f, vals)
  }

  /** A literal format byte is copied. */
  lemma LiteralRendered(f: Bytes, vals: seq<Option<Bytes>>, p: nat, k: nat, done: Bytes)
    requires Occurrences(f, SENTINEL) == |vals|
    requires RenderedSoFar(f, vals, p, k, done) && p < |f| && f[p] != SENTINEL
    ensures |done| < |Expand(f, vals)|
    ensures RenderedSoFar(f, vals, p + 1, k, done + [f[p]])
  {
    assert f[p..][1..] == f[p + 1..];
    var rest := Expand(f[p + 1..], vals[k..]);
    assert Expand(f[p..], vals[k..]) == [f[p]] + rest;
    assert done + ([f[p]] + rest) == (done + [f[p]]) + rest;
  }

  /** A sentinel is replaced by the next value's bytes. */
  lemma ValueRendered(f: Bytes, vals: seq<Option<Bytes>>, p: nat, k: nat, done: Bytes)
    requires Occurrences(f, SENTINEL) == |vals|
    requires RenderedSoFar(f, vals, p, k, done) && p < |f| && f[p] == SENTINEL
    ensures k < |vals|
    ensures |done| + |ValueBytes(vals[k])| <= |Expand(f, vals)|
    ensures RenderedSoFar(f, vals, p + 1, k + 1, done + ValueBytes(vals[k]))
  {
    assert f[p..][1..] == f[p + 1..];
    assert vals[k..][1..] == vals[k + 1..];
    var rest := Expand(f[p + 1..], vals[k + 1..]);
    assert Expand(f[p..], vals[k..]) == ValueBytes(vals[k]) + rest;
    assert done + (ValueBytes(vals[k]) + rest) == (done + ValueBytes(vals[k])) + rest;
  }

  /** The inner copy loop: `src` written into `buf` from position `at` on. */
  method CopyInto(buf: array<byte>, at: nat, src: Bytes) returns (next: nat)
    requires at + |src| <= buf.Length
    modifies buf
    ensures next == at + |src|
    ensures buf[..next] == old(buf[..at]) + src
  {
    next := at;
    var i := 0;
    while i < |src|
      invariant 0 <= i <= |src| && next == at + i
      invariant buf[..next] == old(buf[..at]) + src[..i]
    {
      buf[next] := src[i];
      next := next + 1;
      i := i + 1;
    }
    assert src[..i] == src;
  }

  /**
   * The first loop: fetch every indexed variable in order and compute the
   * record length, starting from the format length and adding `len - 1`
   * for a found value and `-1` for a missing one. For an empty found value
   * the source adds `(size_t)-1`, which wraps to one less; the running
   * length never drops below zero, so every step equals the unbounded sum.
   */
  method CollectValues(vars: seq<nat>, get: nat -> Option<Bytes>, formatLen: nat)
    returns (vals: seq<Option<Bytes>>, resLen: nat)
    requires |vars| <= formatLen
    ensures vals == Apply(get, vars)
    ensures resLen == formatLen + Extra(vals)
  {
    vals := [];
    resLen := formatLen;
    var i := 0;
    while i < |vars|
      invariant 0 <= i <= |vars|
      invariant vals == Apply(get, vars[..i])
      invariant resLen == formatLen + Extra(vals)
    {
      var v := get(vars[i]);
      ExtraSnoc(vals, v);
      vals := vals + [v];
      if v.Some? {
        resLen := resLen + (|v.value| - 1);
      } else {
        resLen := resLen - 1;
      }
      i := i + 1;
    }
    assert vars[..i] == vars;
  }

  /**
   * The second loop: walk the format, copying literal bytes and replacing
   * each sentinel with the next value's bytes (nothing when the variable
   * was not found), into a fresh buffer of the precomputed length, which
   * the record fills exactly.
   */
  method RenderRecord(format: array<byte>, formatLen: nat, vals: seq<Option<Bytes>>, resLen: nat)
    returns (buf: array<byte>)
    requires formatLen <= format.Length
    requires Occurrences(format[..formatLen], SENTINEL) == |vals|
    requires resLen == formatLen + Extra(vals)
    ensures buf.Length == resLen
    ensures buf[..] == Expand(format[..formatLen], vals)
  {
    ghost var f := format[..formatLen];
    buf := new byte[resLen];
    var cur: nat := 0;
    var p: nat := 0;
    var k: nat := 0;
    assert f[0..] == f && vals[0..] == vals;
    while p < formatLen
      invariant buf.Length == |Expand(f, vals)|
      invariant cur <= buf.Length && RenderedSoFar(f, vals, p, k, buf[..cur])
    {
      if format[p] != SENTINEL {
        cur := RenderLiteral(buf, cur, format[p], f, vals, p, k);
      } else {
        cur := RenderValue(buf, cur, f, vals, p, k);
        k := k + 1;
      }
      p := p + 1;
    }
    assert f[p..] == [];
    assert buf[..cur] == buf[..];
  }

  /** One literal byte of the format, copied to the record. */
  method RenderLiteral(buf: array<byte>, cur: nat, b: byte,
                       ghost f: Bytes, ghost vals: seq<Option<Bytes>>, ghost p: nat, ghost k: nat)
    returns (next: nat)
    requires Occurrences(f, SENTINEL) == |vals| && buf.Length == |Expand(f, vals)|
    requires cur <= buf.Length && RenderedSoFar(f, vals, p, k, buf[..cur])
    requires p < |f| && f[p] == b && b != SENTINEL
    modifies buf
    ensures next <= buf.Length && RenderedSoFar(f, vals, p + 1, k, buf[..next])
  {
    ghost var done := buf[..cur];
    LiteralRendered(f, vals, p, k, done);
    buf[cur] := b;
    next := cur + 1;
    assert buf[..next] == done + [f[p]];
  }

  /** One sentinel of the format, replaced by the next value's bytes. */
  method RenderValue(buf: array<byte>, cur: nat,
                     ghost f: Bytes, vals: seq<Option<Bytes>>, ghost p: nat, k: nat)
    returns (next: nat)
    requires Occurrences(f, SENTINEL) == |vals| && buf.Length == |Expand(f, vals)|
    requires cur <= buf.Length && RenderedSoFar(f, vals, p, k, buf[..cur])
    requires p < |f| && f[p] == SENTINEL
    modifies buf
    ensures k < |vals|
    ensures next <= buf.Length && RenderedSoFar(f, vals, p + 1, k + 1, buf[..next])
  {
    ghost var done := buf[..cur];
    ValueRendered(f, vals, p, k, done);
    var v := vals[k];
    if v.Some? {
      assert ValueBytes(v) == v.value;
      next := CopyInto(buf, cur, v.value);
    } else {
      assert done + ValueBytes(v) == done;
      next := cur;
    }
  }
}
