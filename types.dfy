/** The records the SeekAll job reads and writes, with the database abstracted
    as plain data: queues, responses (pagination state of one seekable and
    endpoint), seekable instances and the Seek / SeekAll jobs it emits. */
module Types {

  datatype Option<T> = None | Some(value: T)

  /** The primary key of an Eloquent model: an integer or a string key. */
  datatype Key = IntKey(n: int) | StrKey(s: string)

  /** PHP truthiness of a key: 0, "" and "0" are falsy. */
  predicate Truthy(k: Key)
  {
    match k
    case IntKey(n) => n != 0
    case StrKey(s) => s != "" && s != "0"
  }

  /** A rate-limited queue; `maxPerMinute` is the nullable `max_per_minute` column. */
  datatype Queue = Queue(id: int, name: string, maxPerMinute: Option<int>)

  /** A reference to one seekable model: its class and its key. */
  datatype Target = Target(className: string, key: Key)

  /** A job emitted by SeekAll: a `Seek` of a target through an endpoint
      (with the url to follow for an iterative seek), or a nested `SeekAll`
      scoped to one queue. */
  datatype Job =
    | Seek(target: Target, endpoint: string, url: Option<string>)
    | SeekAll(queue: Queue)

  /** A stored response of `endpoint` for `seekable`.
      `queueId` is the queue its endpoint belongs to, `seekableUrls` the
      nullable `seekable_urls` column, `childUrls` the urls of its child
      responses and `candidateUrls` what `iterableUrls()` enumerates. */
  datatype Response = Response(
    seekable: Target,
    endpoint: string,
    queueId: int,
    seekableUrls: Option<int>,
    childUrls: seq<string>,
    candidateUrls: seq<string>)

  /** One row of a seekable class; `hasData` says whether any `Data`
      is attached to it. */
  datatype Instance = Instance(key: Key, hasData: bool)

  /** An endpoint class registered for a seekable class, with the closure
      that constrains which instances it may seek, given as the keys of the
      rows the closure's constraints admit. */
  datatype EndpointRule = EndpointRule(endpointClass: string, matching: set<Key>)

  /** An entry of the seekables registry: a seekable class, whether it
      implements ShouldSeekOnce and ShouldSeekContinually, its rows in query
      order and its endpoints in registration order. */
  datatype SeekableClass = SeekableClass(
    name: string,
    seekOnce: bool,
    seekContinually: bool,
    instances: seq<Instance>,
    endpoints: seq<EndpointRule>)
}
