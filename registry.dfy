/**
 * The process-wide table of topics: the global `queue_path` set by the
 * `lmdb_queue <dir>` directive and the `producers` map from topic name to
 * the producer that appends to that topic, filled by `lmdb_queue_topic`.
 */
module Registry {
  import opened Common
  import opened TopicOptions

  /**
   * A topic's producer as far as this module sees it: the root directory,
   * the topic name and the options it was created with. The queue engine
   * behind it is not part of this model.
   */
  class Producer {
    const root: Bytes
    const topic: Bytes
    const options: TopicOpt

    constructor (root: Bytes, topic: Bytes, options: TopicOpt)
      ensures this.root == root && this.topic == topic && this.options == options
    {
      this.root := root;
      this.topic := topic;
      this.options := options;
    }
  }

  /** What `mkdir` of the queue root reported. */
  datatype MkdirOutcome = Created | AlreadyExists | Failed

  class TopicRegistry {
    var queuePath: Bytes
    var producers: map<Bytes, Producer>

    /**
     * Every producer is filed under its own topic name and was created
     * with options that passed validation.
     */
    ghost predicate Valid()
      reads this, producers.Values
    {
      forall name :: name in producers ==>
        producers[name].topic == name && ValidOptions(producers[name].options)
    }

    constructor ()
      ensures Valid() && queuePath == [] && producers == map[]
    {
      queuePath := [];
      producers := map[];
    }

    /**
     * `lmdb_queue <dir>`: the directory becomes the queue root when `mkdir`
     * created it or it already existed; any other outcome fails and keeps
     * the previous root.
     */
    method SetQueuePath(path: Bytes, mkdir: MkdirOutcome) returns (ok: bool)
      modifies this`queuePath
      ensures ok <==> mkdir != Failed
      ensures queuePath == if ok then path else old(queuePath)
    {
      ok := mkdir == Created || mkdir == AlreadyExists;
      if ok {
        queuePath := path;
      }
    }

    /**
     * `producers[name]` followed by `reset` when the slot is empty: a new
     * name gets exactly one new producer; a name already present keeps its
     * producer and the call still succeeds.
     */
    method Register(name: Bytes, options: TopicOpt)
      requires Valid() && ValidOptions(options)
      modifies this`producers
      ensures Valid()
      ensures name in old(producers) ==> producers == old(producers)
      ensures name !in old(producers) ==>
        && producers.Keys == old(producers).Keys + {name}
        && fresh(producers[name])
        && producers[name].root == queuePath
        && producers[name].topic == name
        && producers[name].options == options
        && forall other :: other in old(producers) ==> producers[other] == old(producers)[other]
    {
      if name !in producers {
        var p := new Producer(queuePath, name, options);
        producers := producers[name := p];
      }
    }

    /**
     * `lmdb_queue_topic <name> <size> <keep>`: validate both options, in
     * that order, and register the topic only when both pass.
     */
    method DeclareTopic(name: Bytes, sizeArg: Bytes, keepArg: Bytes)
      returns (r: Result<(), TopicError>)
      requires Valid()
      modifies this`producers
      ensures Valid()
      ensures r.Err? ==> ParseTopicOptions(sizeArg, keepArg) == Err(r.error)
      ensures r.Err? ==> producers == old(producers)
      ensures r.Ok? <==> ParseTopicOptions(sizeArg, keepArg).Ok?
      ensures r.Ok? && name in old(producers) ==> producers == old(producers)
      ensures r.Ok? && name !in old(producers) ==>
        && producers.Keys == old(producers).Keys + {name}
        && fresh(producers[name])
        && producers[name].root == queuePath
        && producers[name].topic == name
        && producers[name].options == ParseTopicOptions(sizeArg, keepArg).value
        && forall other :: other in old(producers) ==> producers[other] == old(producers)[other]
    {
      match ParseTopicOptions(sizeArg, keepArg)
      case Err(e) =>
        return Err(e);
      case Ok(options) =>
        Register(name, options);
        return Ok(());
    }

    /** `producers.find(name)`: the producer filed under `name`, if any. */
    function Find(name: Bytes): (p: Option<Producer>)
      reads this
      ensures p.Some? <==> name in producers
      ensures p.Some? ==> p.value == producers[name]
    {
      if name in producers then Some(producers[name]) else None
    }
  }
}
