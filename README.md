# nginx-lmdb-queue: configuration and record rendering

This project is a Dafny model of the nginx module `ngx_http_lmdb_queue_module`. The module appends one record per HTTP request to an LMDB-backed message queue. Three directives configure it:

- `lmdb_queue <dir>` sets the queue root directory.
- `lmdb_queue_topic <name> <size> <keep>` declares a topic. It takes a chunk size with an `m`/`M` or `g`/`G` unit, and the number of chunks to keep.
- `lmdb_queue_push <topic> <template>` binds a location to a topic. Its template mixes literal bytes with `$variable` references.

At configuration time the push directive compiles the template into a fixed 8 KiB format buffer. Each `$name` becomes one sentinel byte 0x01, and the names become nginx variable indexes. For every request, the log-phase handler first computes the record length from the variables' values. It then renders the record by copying literal bytes and replacing each sentinel with the next value.

The modules follow the source file:

- `Common`: bytes, `Option`/`Result`, and counting and scanning helpers.
- `TopicOptions`: parsing and validation of the topic directive's arguments, as pure functions.
- `Registry`: the global queue root and the topic-to-producer map, as a class whose methods update it.
- `Template`: the specification of compiling and expanding, and a one-pass reference substitution they are proved against.
- `Location`: the per-location configuration, with the compile loop of the push directive and the two loops of the handler as imperative methods over arrays.

The main properties:

- With the corrected size check (see Findings), a chunk size is accepted only inside [64 MiB, 64 GiB], and every size there that a unit can express is accepted. A retention count is accepted exactly when it is at least 4 and below `ULLONG_MAX`.
- A topic is registered at most once. A later declaration keeps the first producer.
- For a template without 0x01 bytes, the compiled format holds one sentinel per variable. Rendering it with the variables' values gives the same bytes as substituting every `$name` directly in the template.
- For a format with one sentinel per variable (any template without 0x01 bytes), the handler's precomputed length is exactly the length of the record it renders.
- The compile loop writes exactly the compiled format, and the render loop writes exactly the expanded record.

## Model

| member | source | states |
|---|---|---|
| TopicOptions.StrToULL | src/ngx_http_lmdb_queue_module.cc:122 | `strtoull` of the leading decimal digits, saturating: the value never exceeds `ULLONG_MAX` |
| TopicOptions.StrToULLOfDecimal | src/ngx_http_lmdb_queue_module.cc:122 | a number below `ULLONG_MAX` written in decimal and followed by a non-digit is read back whole |
| TopicOptions.DecimalRoundTrip | src/ngx_http_lmdb_queue_module.cc:148 | the decimal notation of a number consists of digits and its value is that number |
| TopicOptions.UnitScale | src/ngx_http_lmdb_queue_module.cc:128-141 | `m`/`M` scale by 2^20, `g`/`G` by 2^30, and exactly those four bytes are units |
| TopicOptions.NumberAndScale | src/ngx_http_lmdb_queue_module.cc:122-141 | the size-overflow error iff `strtoull` saturates; otherwise the invalid-unit error iff the argument is empty or its last byte is not a unit; on success the leading number and the last byte's scale (one MiB or one GiB) |
| TopicOptions.CheckRange | src/ngx_http_lmdb_queue_module.cc:143-146 | a size passes iff it lies in [64 MiB, 64 GiB]; otherwise the error is the range error |
| TopicOptions.ParseChunkSize | src/ngx_http_lmdb_queue_module.cc:121-146 | an accepted size is in range, its last byte is a unit, and it is the leading number times the unit's scale; the size-overflow error iff `strtoull` saturates, the invalid-unit error iff it does not and the last byte is not a unit, and the range error iff both pass but the scaled size is outside [64 MiB, 64 GiB] |
| TopicOptions.EveryInRangeSizeAccepted | src/ngx_http_lmdb_queue_module.cc:128-146 | every number whose scaled value lies in [64 MiB, 64 GiB], written with any unit letter, is accepted with that value |
| TopicOptions.ParseChunkSizeAsWritten | src/ngx_http_lmdb_queue_module.cc:132-146 | the size computed with 64-bit wrap-around still passes only in [64 MiB, 64 GiB] after the wrap |
| TopicOptions.AsWrittenAgreesWithoutWrap | src/ngx_http_lmdb_queue_module.cc:132-136 | when the product cannot exceed 2^64 the wrapping and the unbounded computations agree |
| TopicOptions.WrappedChunkSizeAccepted | src/ngx_http_lmdb_queue_module.cc:136-146 | "17179869248g" is accepted as exactly 64 GiB by the wrapping computation and rejected by the unbounded one |
| TopicOptions.ParseChunksToKeep | src/ngx_http_lmdb_queue_module.cc:148-156 | an accepted count is the leading number and at least 4; too-few-chunks iff the number is below 4; overflow iff it reaches `ULLONG_MAX` |
| TopicOptions.EveryRetentionAccepted | src/ngx_http_lmdb_queue_module.cc:148-156 | every count from 4 up to below `ULLONG_MAX` written in decimal is accepted with that value |
| TopicOptions.ParseTopicOptions | src/ngx_http_lmdb_queue_module.cc:121-156 | both options are accepted iff each parse succeeds; the result is valid and carries both values; a size error is reported first, and otherwise the retention error is reported |
| Registry.Producer.constructor | src/ngx_http_lmdb_queue_module.cc:161-162 | a producer records the queue root, the topic name and its options |
| Registry.TopicRegistry.constructor | src/ngx_http_lmdb_queue_module.cc:12-13 | the queue root starts empty and no topic is registered |
| Registry.TopicRegistry.SetQueuePath | src/ngx_http_lmdb_queue_module.cc:104-115 | the directory becomes the root iff `mkdir` created it or it already existed; otherwise the old root stays |
| Registry.TopicRegistry.Register | src/ngx_http_lmdb_queue_module.cc:159-163 | insert-if-absent: a new name gets one fresh producer with the current root; an existing name and every other entry are untouched; every entry stays filed under its own name |
| Registry.TopicRegistry.DeclareTopic | src/ngx_http_lmdb_queue_module.cc:117-166 | fails with the parse error and no change iff the options are invalid; otherwise succeeds, and registers the topic only when it is new, with a fresh producer on the current root, under that name and with the parsed options |
| Registry.TopicRegistry.Find | src/ngx_http_lmdb_queue_module.cc:172-177 | the producer under a name is found iff the name is registered; the push directive uses it to reject an unknown topic |
| Template.Compile | src/ngx_http_lmdb_queue_module.cc:183-203 | each `$` becomes one sentinel plus the longest identifier run after it as a name; every other byte is copied; the format is never longer than the template |
| Template.CompileLength | src/ngx_http_lmdb_queue_module.cc:183-203 | the format plus all variable names is exactly as long as the template, so the format is never longer |
| Template.CompileSentinels | src/ngx_http_lmdb_queue_module.cc:184-186 | the format holds one sentinel per variable plus each 0x01 byte already in the template |
| Template.SentinelPerVariable | src/ngx_http_lmdb_queue_module.cc:184-186 | a template without 0x01 bytes compiles to exactly one sentinel per variable |
| Template.CompileNames | src/ngx_http_lmdb_queue_module.cc:187-191 | every variable name consists of `[0-9A-Za-z_]` bytes only |
| Template.ExampleTemplateCompiles | src/ngx_http_lmdb_queue_module.cc:183-203 | "$a-$b" compiles to sentinel, '-', sentinel with the names "a" and "b" |
| Template.ResolveAll | src/ngx_http_lmdb_queue_module.cc:191-197 | the indexes exist iff every name has one, and then they are the names' indexes in order |
| Template.Extra | src/ngx_http_lmdb_queue_module.cc:233-242 | the record is at most one byte per variable shorter than the format |
| Template.ExtraSnoc | src/ngx_http_lmdb_queue_module.cc:233-242 | the length adjustment accumulates one variable at a time, front to back |
| Template.Expand | src/ngx_http_lmdb_queue_module.cc:244-259 | the expanded record is the format's length adjusted by `len - 1` per found value and `-1` per missing one |
| Template.AbsentVariableContributesNothing | src/ngx_http_lmdb_queue_module.cc:253-257 | with a = "1" and b missing, the format sentinel, '-', sentinel renders as "1-" |
| Template.CompileThenExpand | src/ngx_http_lmdb_queue_module.cc:183-259 | for a template without 0x01 bytes, expanding the compiled format with the names' values equals substituting every `$name` in the template directly |
| Template.CompiledRecordInterpolates | src/ngx_http_lmdb_queue_module.cc:191-259 | resolving the names to indexes at configuration time and fetching by index per request yields the direct substitution |
| Location.LocationConf.constructor | src/ngx_http_lmdb_queue_module.cc:94-102 | a zeroed configuration: no producer, empty format, no variable indexes |
| Location.LocationConf.BindPush | src/ngx_http_lmdb_queue_module.cc:168-212 | an unknown topic fails and changes nothing; a name without an index fails and keeps the binding, length and indexes; otherwise the location is bound to the topic's producer, the buffer holds the compiled format and `vars` the indexes in order |
| Location.CompileTemplate | src/ngx_http_lmdb_queue_module.cc:181-205 | the loop succeeds iff every name resolves, and then the buffer's prefix is the compiled format and the indexes are the resolved ones in order |
| Location.CompileStep | src/ngx_http_lmdb_queue_module.cc:184-202 | one pass of the loop body: a `$` with its name when the template is at one, then one other byte when one follows; it fails only when the template's names cannot all be resolved, and otherwise it advances and keeps the written prefix a prefix of the compiled format |
| Location.CompileVariable | src/ngx_http_lmdb_queue_module.cc:184-197 | a `$` writes one sentinel, consumes the name after it and looks it up; the name is the next one of the compiled template |
| Location.ScanName | src/ngx_http_lmdb_queue_module.cc:187-189 | the name is the longest run of identifier bytes from the start position |
| Location.CompileLiteral | src/ngx_http_lmdb_queue_module.cc:200-202 | a byte other than `$` is copied, and the written prefix stays a prefix of the compiled format |
| Location.LocationConf.Handle | src/ngx_http_lmdb_queue_module.cc:225-259 | an unbound location produces nothing; a bound one produces the format expanded with the values of its variable indexes, of the precomputed length |
| Location.CollectValues | src/ngx_http_lmdb_queue_module.cc:231-242 | the values are fetched for every index in order, and the length is the format's length plus every value's adjustment |
| Location.RenderRecord | src/ngx_http_lmdb_queue_module.cc:244-259 | the buffer has the precomputed length and holds exactly the expanded record |
| Location.RenderLiteral | src/ngx_http_lmdb_queue_module.cc:248-249 | a literal format byte is copied and the output stays a prefix of the record |
| Location.RenderValue | src/ngx_http_lmdb_queue_module.cc:250-257 | a sentinel consumes the next value, and its bytes (none when missing) extend the prefix of the record |
| Location.CopyInto | src/ngx_http_lmdb_queue_module.cc:254-256 | the value's bytes are appended to the buffer after the bytes already written |

## Left out

- The producer and the queue engine behind it are not modelled. `producer.h` is not part of this model. A producer is its root, topic and options. The final `push` of the record (lines 261-263) is left out, so `Handle` returns the record instead.
- `SetQueuePath` takes the outcome of `mkdir` as a parameter. The file system, `errno` and the logged `strerror` text are left out.
- The nginx module tables and the log-phase hook (lines 33-82 and 214-223) only declare and register the handlers. They are left out.
- `ngx_http_get_variable_index` and `ngx_http_get_indexed_variable` are foreign calls. They are the function parameters `resolve` and `get`. A null value and a value marked `not_found` are both `None`.
- TopicOptions.StrToULL: leading white space and a sign are not modelled. Such an argument reads as 0 here, whereas `strtoull` skips the white space and negates a `-` value modulo 2^64. So "-5" as a retention count is rejected here but accepted by the source as 2^64 - 5.
- TopicOptions.NumberAndScale: an empty size argument is modelled as an invalid unit. The source reads the byte before the argument in that case, which is undefined.
- TopicOptions.ParseTopicOptions / Registry.TopicRegistry.DeclareTopic: both use the corrected `ParseChunkSize`. The source also accepts sizes whose product wraps modulo 2^64 into the range, such as "17179869248g", and registers them with the wrapped size (see Findings). `TopicOptions.ParseChunkSizeAsWritten` models that computation.
- Registry.TopicRegistry.DeclareTopic: declaring a topic twice succeeds and keeps the first producer and its options. The model follows the code here; nothing reports the duplicate.
- Location.LocationConf.BindPush: when the topic exists, it requires the compiled format to fit the 8 KiB buffer. The source does not check this and writes past the buffer. An unknown topic is rejected whatever the template's length.
- Location.LocationConf.BindPush: when a name has no index, the buffer may already be partly overwritten. The contract does not say which bytes.
- Location.LocationConf.Handle: it requires one sentinel per variable index. `Template.SentinelPerVariable` shows this holds for every template without 0x01 bytes. A template containing a raw 0x01 byte makes the source read past its values, which is not modelled.
- Location.LocationConf.Handle: the source looks up the location configuration of `ngx_http_accesskey_module` rather than its own module (line 226). The model uses the location's own configuration.
- The rendered buffer is never freed by the source. Allocation and leaks are not modelled.
- Lengths are unbounded integers. The source's running `resLen` is a `size_t`. For a missing value, and for a found value of length zero, `resLen` goes down by one. For an empty found value this happens by adding `(size_t)-1`, which wraps to `resLen - 1`. The running total never drops below zero, so each step and the final length equal the unbounded sum.
- Topic names are byte strings. The source keys its map by C string, so a name with a NUL byte would be cut short; that is not modelled.

## Findings

| source | as written | input that shows it | evidently intended | confidence | as-written member | corrected member |
|---|---|---|---|---|---|---|
| src/ngx_http_lmdb_queue_module.cc:132-146 | the size is multiplied by its unit in a 64-bit `size_t`, which wraps before the range check sees it | size argument "17179869248g", i.e. (2^34 + 64) GiB, wraps to exactly 64 GiB and is accepted | reject every size whose real value is outside [64 MiB, 64 GiB] | not executed; high: the arithmetic is proved | TopicOptions.WrappedChunkSizeAccepted | TopicOptions.ParseChunkSize |
