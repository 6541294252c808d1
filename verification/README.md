# Redis store facade and Color codec — Dafny model

This project models the two pieces of logic in a Java service layer over the Jedis Redis client.

1. **The `Color` enumeration and its JSON adapter.** There are six constants, each declared with an integer tag (Red 0, Blue 1, Green 2, Yellow 4, White 8, Black 16). `findByAbbr` scans the constants linearly to map an integer back to its constant. `ColorSerializer` writes a constant as its tag and reads an integer back through `findByAbbr`. Modules `Colors` and `ColorSerializer` cover these.
2. **The result mapping of `RedisService`.** Each value-returning store and queue method (and `publish`) makes one call to the Redis client inside a `catch (Exception …)`. When that call throws an exception, it returns a neutral value: 0, false or null. Module `RedisService` models each of these methods as a pure function. The subscription methods and `unsubscribe` have no try/catch and are not modelled.
   - The client (`Client`) is a record of total functions from a call's arguments to an `Outcome`: either `Ok(value)` or `Thrown(message)`. Each method makes exactly one call, so whatever the server does is folded into that function.
   - The JSON library for one value type (`JsonCodec`) is a pair of functions that may throw. Its decoder takes a non-null text. A null text (a missing key, an empty queue) decodes to null without reaching the decoder, as Gson's `fromJson` does.
   - Java `null` is `None`, and the JVM's `int` and `long` are the subset types `Int32` and `Int64`.
   - The loop of the varargs `exists`/`delete` is modelled as the method `KeyArguments`. It builds the key-text array and the ", "-joined log text, and is proved equal to the reference definitions `KeyText.Texts` and `KeyText.Join`.

Single-key operations take the key's text form, i.e. `key.toString()`. Logging is treated as a no-op that never fails.

The doc comment of `ttl` (src/main/java/services/RedisService.java:177) promises −1 for a missing key or a key without an expiry. It says nothing about failures. The code initialises its result to 0 (line 181) and leaves it there when the client throws (lines 187-190), so `Ttl` returns 0 on that path, not −1. Its contract also states that a 0 result cannot tell a failure from a key that has 0 seconds left. Likewise, every count-returning operation's contract states that 0 cannot tell a failure from a genuine zero.

## Model

| member | source | states |
|---|---|---|
| Colors.Value | src/main/java/models/enums/Color.java:8-18 | every constant's tag lies in {0, 1, 2, 4, 8, 16} |
| Colors.ValuesEnumerateColors | src/main/java/models/enums/Color.java:6-13 | `values()` lists each of the six constants, and no constant twice |
| Colors.ValueInjective | src/main/java/models/enums/Color.java:8-13 | distinct constants carry distinct tags, so `getValue` is injective |
| Colors.FindIn | src/main/java/models/enums/Color.java:23-31 | the scan returns a constant from the scanned sequence whose tag equals the argument, and returns null exactly when no scanned constant has that tag |
| Colors.FindInFirstMatch | src/main/java/models/enums/Color.java:23-29 | when constant k is the first in order whose tag matches, the scan returns constant k |
| Colors.FindByAbbr | src/main/java/models/enums/Color.java:21-32 | returns non-null exactly when the integer is a declared tag; the result's tag is the integer; with distinct tags the result is the unique constant carrying it |
| Colors.FindByAbbrOfValue | src/main/java/models/enums/Color.java:21-36 | looking up a constant's own tag yields that constant |
| ColorSerializer.Serialize | src/main/java/models/enums/ColorSerializer.java:12-14 | the written number is one of the six tags, and `findByAbbr` maps it back to the constant written |
| ColorSerializer.Deserialize | src/main/java/models/enums/ColorSerializer.java:16-19 | an integer that is no declared tag reads as null and does not raise an error; a non-null result serializes back to the same integer |
| ColorSerializer.RoundTrip | src/main/java/models/enums/ColorSerializer.java:12-19 | deserializing a serialized constant gives the constant |
| ColorSerializer.ReverseRoundTrip | src/main/java/models/enums/ColorSerializer.java:12-19 | an integer that deserializes to a constant is exactly what that constant serializes to |
| KeyText.JoinLength | src/main/java/services/RedisService.java:223-227 | n joined keys carry exactly n − 1 separators: the length is the keys' total plus (n − 1) separator lengths |
| KeyText.JoinFront | src/main/java/services/RedisService.java:224-226 | the joined text starts with the first key followed by a separator, so no separator leads |
| RedisService.Serialize | src/main/java/services/RedisService.java:57-65 | yields the encoder's text when encoding succeeds; yields null, with the exception caught, when encoding throws an exception |
| RedisService.Deserialize | src/main/java/services/RedisService.java:39-47 | a null text yields null; otherwise yields the decoder's result when decoding succeeds, and null, with the exception caught, when decoding throws an exception |
| RedisService.DeserializeUndoesSerialize | src/main/java/services/RedisService.java:39-65 | with a codec that decodes what it encodes, `deserialize(serialize(x))` is x |
| RedisService.Expire | src/main/java/services/RedisService.java:139-150 | true if and only if the client call succeeds with a code > 0; false for code 0, for a negative code, and when the client throws |
| RedisService.ExpireAt | src/main/java/services/RedisService.java:160-171 | true if and only if the client call succeeds with a code > 0; false otherwise, including when the client throws |
| RedisService.ExpireAtAgreesWithExpire | src/main/java/services/RedisService.java:139-171 | `expire` and `expireAt` give the same result whenever the client answers alike; false holds exactly when the call threw or the code was ≤ 0 |
| RedisService.Ttl | src/main/java/services/RedisService.java:180-191 | never below −1; −1 exactly when the client reports a negative value; a non-negative report is returned unchanged; 0 (not −1) when the client throws |
| RedisService.Exist | src/main/java/services/RedisService.java:200-210 | true if and only if the client answers true; false when it throws |
| RedisService.KeyArguments | src/main/java/services/RedisService.java:221-227 | the key array has one entry per key, entry i being key i's text, in order; the log text joins those texts with ", " (the loop at lines 284-290 is identical) |
| RedisService.ExistsAll | src/main/java/services/RedisService.java:219-236 | the client receives the keys' texts in order; its count is returned unchanged on success; the result is 0 exactly when the client threw or answered 0 |
| RedisService.Get | src/main/java/services/RedisService.java:244-255 | null when the client throws, when the key is missing (client answers null), or when decoding fails or gives null; a non-null result is what the codec decoded from the stored text |
| RedisService.GetReturnsStoredObject | src/main/java/services/RedisService.java:244-255 | when the stored text is an object's encoding and the codec decodes what it encodes, `get` returns that object |
| RedisService.Delete | src/main/java/services/RedisService.java:263-273 | the client's removed count on success; the result is 0 exactly when the client threw or answered 0 |
| RedisService.DeleteAll | src/main/java/services/RedisService.java:282-299 | the client receives the keys' texts in order; its count is returned unchanged on success; the result is 0 exactly when the client threw or answered 0 |
| RedisService.DeleteOneIsDeleteAll | src/main/java/services/RedisService.java:263-299 | the single-key and varargs `delete` agree on one key whenever the client treats a one-key array like the key |
| RedisService.ExistIsExistsAllPositive | src/main/java/services/RedisService.java:200-236 | `exist(k)` holds exactly when varargs `exists(k)` is positive, given a client that counts an existing key as 1 |
| RedisService.QueueSize | src/main/java/services/RedisService.java:311-321 | the client's list length on success; the result is 0 exactly when the client threw or answered 0 |
| RedisService.QueueLeftPush | src/main/java/services/RedisService.java:330-341 | the client receives the value's JSON text, or null if encoding failed; the new length is returned on success, and 0 when the client throws |
| RedisService.QueueRightPush | src/main/java/services/RedisService.java:351-362 | as left push, at the tail |
| RedisService.DequeueAndPush | src/main/java/services/RedisService.java:371-382 | null when the client throws, when the source queue was empty (client answers null), or when decoding fails or gives null; a non-null result is the decoded moved element |
| RedisService.DequeueAndPushReturnsMovedObject | src/main/java/services/RedisService.java:371-382 | when the moved text is a value's encoding and the codec decodes what it encodes, `dequeueAndPush` returns that value |
| RedisService.RemoveFromQueue | src/main/java/services/RedisService.java:396-407 | the client receives the count unchanged and the value's JSON text (null if encoding failed); the removed count is returned on success, and 0 when the client throws |
| RedisService.QueueWritesSendEncodedValue | src/main/java/services/RedisService.java:330-407 | left push, right push and remove send the value's JSON text when encoding succeeds, and null, with the encoder's exception caught, when encoding throws an exception |
| RedisService.PublishText | src/main/java/services/RedisService.java:613-623 | the message goes to the client as it is; the receiver count is returned on success; the result is 0 exactly when the client threw or answered 0 |
| RedisService.Publish | src/main/java/services/RedisService.java:631-642 | the client receives the message's JSON text (null if encoding failed); the receiver count is returned on success, and 0 when the client throws |
| RedisService.PublishIsPublishOfJson | src/main/java/services/RedisService.java:613-642 | publishing an object that encodes successfully is the same as publishing its JSON text |
| RedisService.UnreachableYieldsNeutralValues | src/main/java/services/RedisService.java:139-642 | when every client call throws an exception, no operation passes it on; each returns its neutral value (0, false or null) |

## Left out

- Redis command semantics (SET, DEL, EXPIRE, TTL, EXISTS, LLEN, LPUSH/RPUSH, RPOPLPUSH, LREM, LTRIM, PUBLISH) belong to the external server and the Jedis library. The client's answers are arbitrary functions of the call's arguments.
- `put` (both overloads), `bput` and `trimQueue` are not modelled. They return nothing, and their only effects are the client call and logging.
- Subscriptions (`subscribe`, `psubscribe` and their listener forms) are not modelled. They forward callbacks verbatim inside Jedis's blocking receive loop, which is network and threading behaviour. `unsubscribe` is a plain pass-through with no try/catch.
- The connection class `EsiaJedis` is not part of this model. It only passes network and TLS configuration through.
- The shared JSON configuration `JsonHelper` is not part of this model. It is a lock-guarded lazy singleton, a concurrency concern. Gson's generic encoding and its date format are library behaviour, represented here by the abstract `JsonCodec`.
- `java.lang.Error`s are not modelled: every catch in the service is `catch (Exception …)`, so an `Error` escapes to the caller. Examples are Gson's `StackOverflowError` on a cyclic or deeply nested value, which escapes `serialize` and the push, remove and publish methods, and `OutOfMemoryError`. `Thrown` stands for an `Exception` only.
- Null keys, values and messages are not modelled. The source calls `toString()`/`getClass()` on them before its try block, so a null would raise a `NullPointerException` to the caller.
- Null queue, channel and destination names are not modelled: names are plain strings. With a null name the client throws inside the try block, so the operation returns its neutral value, the same as any other throwing call.
- Logging is not modelled, including the message texts built for it. The varargs log text is the exception: `KeyArguments` models it.
- ColorSerializer.Deserialize: takes the JSON element's value as a Java `int`. How Gson's `getAsInt` turns a JSON number or other element into an `int`, including narrowing out-of-range numbers and throwing on non-numbers, is library behaviour.
