/** The result mapping of the Redis store facade. Each value-returning store,
    queue and publish method makes one call to the Redis client inside a
    `catch (Exception …)`, logs, and returns a neutral value (0, false or null)
    when that call throws an exception; such an exception never reaches the caller.
    The subscription methods and `unsubscribe` have no try/catch and are not part
    of this model.

    The client is modelled as a record of total functions from a call's arguments to
    its outcome: each operation makes exactly one call, so what the server does with
    it (including its state) is folded into that function. Single-key operations
    take the key's text form (`key.toString()`); logging is a no-op that never
    fails and is not modelled. */
module RedisService {
  import opened Outcomes
  import opened KeyText

  /** The Redis client calls the facade uses, with the value types it returns.
      A JSON argument is `None` when serialization produced null. */
  datatype Client = Client(
    expire: (string, Int32) -> Outcome<Int64>,
    expireAt: (string, Int64) -> Outcome<Int64>,
    ttl: string -> Outcome<Int64>,
    existsKey: string -> Outcome<bool>,
    existsAll: seq<string> -> Outcome<Int64>,
    get: string -> Outcome<Option<string>>,
    del: string -> Outcome<Int64>,
    delAll: seq<string> -> Outcome<Int64>,
    llen: string -> Outcome<Int64>,
    lpush: (string, Option<string>) -> Outcome<Int64>,
    rpush: (string, Option<string>) -> Outcome<Int64>,
    rpoplpush: (string, string) -> Outcome<Option<string>>,
    lrem: (string, Int64, Option<string>) -> Outcome<Int64>,
    publish: (string, Option<string>) -> Outcome<Int64>
  )

  /** The JSON library configured for one value type: encoding a value, and
      decoding a non-null text to a possibly-null value (the text "null" decodes
      to null). Either may throw. */
  datatype JsonCodec<!T> = JsonCodec(
    toJson: T -> Outcome<string>,
    fromJson: string -> Outcome<Option<T>>
  )

  /** The codec decodes `json` to the non-null value `v`. */
  predicate DecodesTo<T(==)>(codec: JsonCodec<T>, json: string, v: T)
  {
    codec.fromJson(json) == Ok(Some(v))
  }

  /** The codec decodes what it encodes, for the value `v`. */
  predicate RoundTrips<T(==)>(codec: JsonCodec<T>, v: T)
  {
    codec.toJson(v).Ok? && DecodesTo(codec, codec.toJson(v).value, v)
  }

  /** `serialize`: the value's JSON text, or null when encoding throws. */
  function Serialize<T>(value: T, codec: JsonCodec<T>): (r: Option<string>)
    ensures r.Some? <==> codec.toJson(value).Ok?
    ensures r.Some? ==> r.value == codec.toJson(value).value
  {
    match codec.toJson(value)
    case Ok(json) => Some(json)
    case Thrown(_) => None
  }

  /** `deserialize`: the decoded value, or null when decoding throws. A null text
      decodes to null without reaching the decoder, as the JSON library's
      `fromJson` answers null for null input. */
  function Deserialize<T>(json: Option<string>, codec: JsonCodec<T>): (r: Option<T>)
    ensures json.None? ==> r.None?
    ensures json.Some? && codec.fromJson(json.value).Thrown? ==> r.None?
    ensures json.Some? && codec.fromJson(json.value).Ok? ==> r == codec.fromJson(json.value).value
    ensures r.Some? ==> json.Some? && DecodesTo(codec, json.value, r.value)
  {
    match json
    case None => None
    case Some(text) => Recover(codec.fromJson(text), None)
  }

  /** A codec that decodes what it encodes makes `deserialize` undo `serialize`. */
  lemma DeserializeUndoesSerialize<T>(value: T, codec: JsonCodec<T>)
    requires RoundTrips(codec, value)
    ensures Deserialize(Serialize(value, codec), codec) == Some(value)
  {
  }

  /** `expire`: true exactly when the client reports a positive code; false when
      the key is missing (code 0) and when the client throws. */
  function Expire(key: string, seconds: Int32, client: Client): (r: bool)
    ensures r <==> client.expire(key, seconds).Ok? && client.expire(key, seconds).value > 0
  {
    var result := Recover(client.expire(key, seconds), 0);
    result > 0
  }

  /** `expireAt`: the same mapping as `expire`, for an absolute unix time. */
  function ExpireAt(key: string, unixTime: Int64, client: Client): (r: bool)
    ensures r <==> client.expireAt(key, unixTime).Ok? && client.expireAt(key, unixTime).value > 0
  {
    var result := Recover(client.expireAt(key, unixTime), 0);
    result > 0
  }

  /** `expire` and `expireAt` map the client's answer the same way: they agree
      whenever the two client calls answer alike, and a false result cannot tell
      a missing key from a failed call. */
  lemma ExpireAtAgreesWithExpire(key: string, seconds: Int32, unixTime: Int64, client: Client)
    requires client.expire(key, seconds) == client.expireAt(key, unixTime)
    ensures Expire(key, seconds, client) == ExpireAt(key, unixTime, client)
    ensures !Expire(key, seconds, client) <==>
      client.expire(key, seconds).Thrown? || client.expire(key, seconds).value <= 0
  {
  }

  /** `ttl`: the remaining seconds reported by the client, every negative report
      normalised to the sentinel -1; when the client throws, the initial 0 is
      returned and not the sentinel. */
  function Ttl(key: string, client: Client): (r: Int64)
    ensures r >= -1
    ensures r == -1 <==> client.ttl(key).Ok? && client.ttl(key).value < 0
    ensures client.ttl(key).Ok? && client.ttl(key).value >= 0 ==> r == client.ttl(key).value
    ensures client.ttl(key).Thrown? ==> r == 0
    ensures r == 0 <==> client.ttl(key).Thrown? || client.ttl(key) == Ok(0)
  {
    match client.ttl(key)
    case Ok(seconds) => if seconds < 0 then -1 else seconds
    case Thrown(_) => 0
  }

  /** `exist`: true exactly when the client answers true. */
  function Exist(key: string, client: Client): (r: bool)
    ensures r <==> client.existsKey(key) == Ok(true)
  {
    Recover(client.existsKey(key), false)
  }

  /** The string array and the log text built by the loop of the varargs `exists`
      and `delete`: the keys' texts in order, and the same texts joined by ", ". */
  method KeyArguments<K>(keys: seq<K>, show: K -> string) returns (sKeys: seq<string>, joined: string)
    ensures |sKeys| == |keys|
    ensures forall i :: 0 <= i < |keys| ==> sKeys[i] == show(keys[i])
    ensures joined == Join(sKeys, Separator)
  {
    sKeys := seq(|keys|, _ => "");
    var sb := "";
    var i := 0;
    while i < |keys|
      invariant 0 <= i <= |keys|
      invariant |sKeys| == |keys|
      invariant forall j :: 0 <= j < i ==> sKeys[j] == show(keys[j])
      invariant sb == Join(sKeys[..i], Separator) + (if 0 < i < |keys| then Separator else "")
    {
      var prefix := sKeys[..i];
      sb := sb + show(keys[i]);
      sKeys := sKeys[i := show(keys[i])];
      assert sKeys[..i + 1] == prefix + [show(keys[i])];
      JoinSnoc(prefix, show(keys[i]), Separator);
      if i < |keys| - 1 {
        sb := sb + Separator;
      }
      i := i + 1;
    }
    assert sKeys[..i] == sKeys;
    joined := sb;
  }

  /** Varargs `exists`: the client's count for the keys' texts, passed in order;
      0 when the client throws, so 0 cannot tell a failure from no key existing. */
  function ExistsAll<K>(keys: seq<K>, show: K -> string, client: Client): (r: Int64)
    ensures client.existsAll(Texts(keys, show)).Ok? ==> r == client.existsAll(Texts(keys, show)).value
    ensures r == 0 <==> client.existsAll(Texts(keys, show)).Thrown? || client.existsAll(Texts(keys, show)) == Ok(0)
  {
    Recover(client.existsAll(Texts(keys, show)), 0)
  }

  /** `get`: the decoded stored value; null when the client throws, when the key
      is missing (the client answers null), when the stored text decodes to null,
      or when decoding throws. */
  function Get<T>(key: string, codec: JsonCodec<T>, client: Client): (r: Option<T>)
    ensures client.get(key).Thrown? ==> r.None?
    ensures client.get(key) == Ok(None) ==> r.None?
    ensures r.Some? ==>
      && client.get(key).Ok? && client.get(key).value.Some?
      && DecodesTo(codec, client.get(key).value.value, r.value)
    ensures client.get(key).Ok? && client.get(key).value.Some? ==>
      r == Deserialize(client.get(key).value, codec)
  {
    match client.get(key)
    case Ok(json) => Deserialize(json, codec)
    case Thrown(_) => None
  }

  /** Reading a key whose stored text is a value's encoding gives the value back,
      provided the codec decodes what it encodes. */
  lemma GetReturnsStoredObject<T>(key: string, value: T, codec: JsonCodec<T>, client: Client)
    requires RoundTrips(codec, value)
    requires client.get(key) == Ok(Serialize(value, codec))
    ensures Get(key, codec, client) == Some(value)
  {
  }

  /** `delete(key)`: the client's count of removed keys; 0 when it throws, so 0
      cannot tell a failure from nothing removed. */
  function Delete(key: string, client: Client): (r: Int64)
    ensures client.del(key).Ok? ==> r == client.del(key).value
    ensures r == 0 <==> client.del(key).Thrown? || client.del(key) == Ok(0)
  {
    Recover(client.del(key), 0)
  }

  /** Varargs `delete`: the client's count for the keys' texts, passed in order;
      0 when the client throws. */
  function DeleteAll<K>(keys: seq<K>, show: K -> string, client: Client): (r: Int64)
    ensures client.delAll(Texts(keys, show)).Ok? ==> r == client.delAll(Texts(keys, show)).value
    ensures r == 0 <==> client.delAll(Texts(keys, show)).Thrown? || client.delAll(Texts(keys, show)) == Ok(0)
  {
    Recover(client.delAll(Texts(keys, show)), 0)
  }

  /** The two `delete` overloads agree on a single key whenever the client treats
      a one-element key array like the key itself. */
  lemma DeleteOneIsDeleteAll<K>(key: K, show: K -> string, client: Client)
    requires client.delAll([show(key)]) == client.del(show(key))
    ensures DeleteAll([key], show, client) == Delete(show(key), client)
  {
    assert Texts([key], show) == [show(key)];
  }

  /** `exist` and the varargs `exists` agree on a single key whenever the client
      counts an existing key as 1 and a missing one as 0. */
  lemma ExistIsExistsAllPositive<K>(key: K, show: K -> string, client: Client)
    requires client.existsKey(show(key)).Ok? ==>
      client.existsAll([show(key)]) == Ok(if client.existsKey(show(key)).value then 1 else 0)
    requires client.existsKey(show(key)).Thrown? ==> client.existsAll([show(key)]).Thrown?
    ensures Exist(show(key), client) <==> ExistsAll([key], show, client) > 0
  {
    assert Texts([key], show) == [show(key)];
  }

  /** `queueSize`: the client's list length; 0 when it throws, so 0 cannot tell a
      failure from an empty queue. */
  function QueueSize(queue: string, client: Client): (r: Int64)
    ensures client.llen(queue).Ok? ==> r == client.llen(queue).value
    ensures r == 0 <==> client.llen(queue).Thrown? || client.llen(queue) == Ok(0)
  {
    Recover(client.llen(queue), 0)
  }

  /** `queueLeftPush`: pushes the value's JSON text (null when encoding failed)
      and returns the client's new length; 0 when the client throws. */
  function QueueLeftPush<T>(queue: string, value: T, codec: JsonCodec<T>, client: Client): (r: Int64)
    ensures client.lpush(queue, Serialize(value, codec)).Ok? ==>
      r == client.lpush(queue, Serialize(value, codec)).value
    ensures client.lpush(queue, Serialize(value, codec)).Thrown? ==> r == 0
  {
    var json := Serialize(value, codec);
    Recover(client.lpush(queue, json), 0)
  }

  /** `queueRightPush`: as `queueLeftPush`, at the tail. */
  function QueueRightPush<T>(queue: string, value: T, codec: JsonCodec<T>, client: Client): (r: Int64)
    ensures client.rpush(queue, Serialize(value, codec)).Ok? ==>
      r == client.rpush(queue, Serialize(value, codec)).value
    ensures client.rpush(queue, Serialize(value, codec)).Thrown? ==> r == 0
  {
    var json := Serialize(value, codec);
    Recover(client.rpush(queue, json), 0)
  }

  /** `dequeueAndPush`: the decoded element the client moved from `queue` to `to`;
      null when the client throws, when the source queue was empty (the client
      answers null), or when decoding gives null or throws. */
  function DequeueAndPush<T>(queue: string, to: string, codec: JsonCodec<T>, client: Client): (r: Option<T>)
    ensures client.rpoplpush(queue, to).Thrown? ==> r.None?
    ensures client.rpoplpush(queue, to) == Ok(None) ==> r.None?
    ensures r.Some? ==>
      && client.rpoplpush(queue, to).Ok? && client.rpoplpush(queue, to).value.Some?
      && DecodesTo(codec, client.rpoplpush(queue, to).value.value, r.value)
    ensures client.rpoplpush(queue, to).Ok? && client.rpoplpush(queue, to).value.Some? ==>
      r == Deserialize(client.rpoplpush(queue, to).value, codec)
  {
    match client.rpoplpush(queue, to)
    case Ok(json) => Deserialize(json, codec)
    case Thrown(_) => None
  }

  /** Moving an element whose text is a value's encoding gives the value back,
      provided the codec decodes what it encodes. */
  lemma DequeueAndPushReturnsMovedObject<T>(queue: string, to: string, value: T, codec: JsonCodec<T>, client: Client)
    requires RoundTrips(codec, value)
    requires client.rpoplpush(queue, to) == Ok(Serialize(value, codec))
    ensures DequeueAndPush(queue, to, codec, client) == Some(value)
  {
  }

  /** `removeFromQueue`: removes elements equal to the value's JSON text, passing
      the count unchanged (widened to a long), and returns the client's removed
      count; 0 when the client throws. */
  function RemoveFromQueue<T>(queue: string, count: Int32, value: T, codec: JsonCodec<T>, client: Client): (r: Int64)
    ensures client.lrem(queue, count, Serialize(value, codec)).Ok? ==>
      r == client.lrem(queue, count, Serialize(value, codec)).value
    ensures client.lrem(queue, count, Serialize(value, codec)).Thrown? ==> r == 0
  {
    var json := Serialize(value, codec);
    Recover(client.lrem(queue, count, json), 0)
  }

  /** What the queue operations send for a value: its JSON text when encoding
      succeeds, and null (the encoder's exception is caught) when encoding throws. */
  lemma QueueWritesSendEncodedValue<T>(queue: string, count: Int32, value: T, codec: JsonCodec<T>, client: Client)
    ensures codec.toJson(value).Ok? ==>
      var json := Some(codec.toJson(value).value);
      && QueueLeftPush(queue, value, codec, client) == Recover(client.lpush(queue, json), 0)
      && QueueRightPush(queue, value, codec, client) == Recover(client.rpush(queue, json), 0)
      && RemoveFromQueue(queue, count, value, codec, client) == Recover(client.lrem(queue, count, json), 0)
    ensures codec.toJson(value).Thrown? ==>
      && QueueLeftPush(queue, value, codec, client) == Recover(client.lpush(queue, None), 0)
      && QueueRightPush(queue, value, codec, client) == Recover(client.rpush(queue, None), 0)
      && RemoveFromQueue(queue, count, value, codec, client) == Recover(client.lrem(queue, count, None), 0)
  {
  }

  /** `publish(channel, String)`: sends the text as it is and returns the client's
      count of receiving subscribers; 0 when the client throws. */
  function PublishText(channel: string, message: string, client: Client): (r: Int64)
    ensures client.publish(channel, Some(message)).Ok? ==> r == client.publish(channel, Some(message)).value
    ensures r == 0 <==> client.publish(channel, Some(message)).Thrown? || client.publish(channel, Some(message)) == Ok(0)
  {
    Recover(client.publish(channel, Some(message)), 0)
  }

  /** `publish(channel, T)`: sends the value's JSON text (null when encoding
      failed) and returns the client's count; 0 when the client throws. */
  function Publish<T>(channel: string, message: T, codec: JsonCodec<T>, client: Client): (r: Int64)
    ensures client.publish(channel, Serialize(message, codec)).Ok? ==>
      r == client.publish(channel, Serialize(message, codec)).value
    ensures client.publish(channel, Serialize(message, codec)).Thrown? ==> r == 0
  {
    var json := Serialize(message, codec);
    Recover(client.publish(channel, json), 0)
  }

  /** Publishing a value is publishing its JSON text. */
  lemma PublishIsPublishOfJson<T>(channel: string, message: T, codec: JsonCodec<T>, client: Client)
    requires codec.toJson(message).Ok?
    ensures Publish(channel, message, codec, client) == PublishText(channel, codec.toJson(message).value, client)
  {
  }

  /** A client on which every call throws: the server is unreachable. */
  ghost predicate Unreachable(client: Client)
  {
    && (forall k, s :: client.expire(k, s).Thrown?)
    && (forall k, t :: client.expireAt(k, t).Thrown?)
    && (forall k :: client.ttl(k).Thrown?)
    && (forall k :: client.existsKey(k).Thrown?)
    && (forall ks :: client.existsAll(ks).Thrown?)
    && (forall k :: client.get(k).Thrown?)
    && (forall k :: client.del(k).Thrown?)
    && (forall ks :: client.delAll(ks).Thrown?)
    && (forall q :: client.llen(q).Thrown?)
    && (forall q, j :: client.lpush(q, j).Thrown?)
    && (forall q, j :: client.rpush(q, j).Thrown?)
    && (forall q, t :: client.rpoplpush(q, t).Thrown?)
    && (forall q, n, j :: client.lrem(q, n, j).Thrown?)
    && (forall c, j :: client.publish(c, j).Thrown?)
  }

  /** With every client call throwing an exception, no operation passes it on:
      each degrades to its neutral value, the same value a legitimately empty
      answer can produce. */
  lemma UnreachableYieldsNeutralValues<T, K>(
    client: Client, key: string, keys: seq<K>, show: K -> string, name: string, to: string,
    seconds: Int32, unixTime: Int64, count: Int32, value: T, message: string, codec: JsonCodec<T>)
    requires Unreachable(client)
    ensures !Expire(key, seconds, client) && !ExpireAt(key, unixTime, client)
    ensures Ttl(key, client) == 0 && !Exist(key, client) && ExistsAll(keys, show, client) == 0
    ensures Get(key, codec, client).None? && Delete(key, client) == 0 && DeleteAll(keys, show, client) == 0
    ensures QueueSize(name, client) == 0 && DequeueAndPush(name, to, codec, client).None?
    ensures QueueLeftPush(name, value, codec, client) == 0 && QueueRightPush(name, value, codec, client) == 0
    ensures RemoveFromQueue(name, count, value, codec, client) == 0
    ensures PublishText(name, message, client) == 0 && Publish(name, value, codec, client) == 0
  {
  }
}
