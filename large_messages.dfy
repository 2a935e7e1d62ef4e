/**
 * The large-message proxy: a sender-side handler that serializes a payload and
 * cuts the byte image into fixed-size chunks, and a receiver-side handler that
 * collects incoming chunks in one shared buffer and, when the stream completes,
 * decodes their concatenation and delivers the value.
 *
 * Java object serialization, actor resolution and the stream runtime are not
 * modelled: the encoder, the decoder and the resolver are parameters.
 */
module LargeMessages {
  import opened Wrappers
  import opened Bytes

  /** CHUNK_SIZE_BYTES: 1 MiB. */
  const ChunkSizeBytes: nat := 1024 * 1024

  /** DEFAULT_NAME: the name every proxy actor is created under. */
  const DefaultName: string := "largeMessageProxy"

  type Chunk = seq<int8>

  /** An actor, identified by its path of names from the root. */
  datatype ActorRef = ActorRef(path: seq<string>)

  datatype LargeMessage<T> = LargeMessage(message: T, receiver: ActorRef)

  /** The marker the stream sends to the receiving proxy after its last chunk. */
  datatype StreamCompleted = StreamCompleted(sender: ActorRef, receiver: ActorRef)

  /** What `ObjectInputStream.readObject` yields: a failure, Java `null`, or an object. */
  datatype Decoded<T> = DecodeError | NullObject | Object(value: T)

  /** `receiver.tell(message, sender)`. */
  datatype Delivery<T> = Delivery(receiver: ActorRef, message: T, sender: ActorRef)

  /** How `handle(LargeMessage)` ends. */
  datatype SendOutcome =
    | ProxyNotResolved
    | NotSerializable
    | Streaming(receiverProxy: ActorRef, chunks: seq<Chunk>, completion: StreamCompleted)

  /** `receiver.path().child(DEFAULT_NAME)`: where the receiver's proxy lives. */
  function ProxyPath(receiver: ActorRef): (r: seq<string>)
    ensures |r| == |receiver.path| + 1
    ensures r[..|receiver.path|] == receiver.path && r[|receiver.path|] == DefaultName
  {
    receiver.path + [DefaultName]
  }

  /** Different receivers have their proxies at different paths. */
  lemma ProxyPathInjective(a: ActorRef, b: ActorRef)
    ensures ProxyPath(a) == ProxyPath(b) ==> a == b
  {
  }

  function Zeros(n: nat): (r: seq<int8>)
    ensures |r| == n && forall k :: 0 <= k < n ==> r[k] == 0
  {
    seq(n, _ => 0)
  }

  /**
   * `Arrays.copyOfRange(original, from, to)`: the elements from `from` up to
   * `to`, padded with zero bytes where `to` runs past the end of `original`.
   */
  function CopyOfRange(original: seq<int8>, from: nat, to: nat): (r: seq<int8>)
    requires from <= |original| && from <= to
    ensures |r| == to - from
    ensures forall k :: 0 <= k < |r| ==> r[k] == if from + k < |original| then original[from + k] else 0
  {
    if to <= |original| then original[from..to] else original[from..] + Zeros(to - |original|)
  }

  /**
   * Reference definition of the chunking: full chunks from the front, and the
   * remainder, if any, zero-padded to a full chunk.
   */
  function Split(bytes: seq<int8>): seq<Chunk>
    decreases |bytes|
  {
    if |bytes| == 0 then []
    else if |bytes| <= ChunkSizeBytes then [bytes + Zeros(ChunkSizeBytes - |bytes|)]
    else [bytes[..ChunkSizeBytes]] + Split(bytes[ChunkSizeBytes..])
  }

  /** The bytes of the chunks, written one after another. */
  function Flatten(chunks: seq<Chunk>): seq<int8>
  {
    if chunks == [] then [] else Flatten(chunks[..|chunks| - 1]) + chunks[|chunks| - 1]
  }

  /** Number of zero bytes that complete `n` bytes to a whole number of chunks. */
  function Padding(n: nat): (p: nat)
    ensures p < ChunkSizeBytes
    decreases n
  {
    if n == 0 then 0
    else if n <= ChunkSizeBytes then ChunkSizeBytes - n
    else Padding(n - ChunkSizeBytes)
  }

  /** The padding completes the length to a multiple of the chunk size. */
  lemma {:induction false} PaddingCompletes(n: nat)
    ensures (n + Padding(n)) % ChunkSizeBytes == 0
    decreases n
  {
    if n > ChunkSizeBytes {
      PaddingCompletes(n - ChunkSizeBytes);
      MultipleShift(n - ChunkSizeBytes + Padding(n));
    }
  }

  lemma MultipleShift(x: nat)
    requires x % ChunkSizeBytes == 0
    ensures (x + ChunkSizeBytes) % ChunkSizeBytes == 0
  {
    var q := x / ChunkSizeBytes;
    assert x == ChunkSizeBytes * q;
    assert x + ChunkSizeBytes == ChunkSizeBytes * (q + 1);
  }

  lemma {:induction false} FlattenAppend(xs: seq<Chunk>, ys: seq<Chunk>)
    ensures Flatten(xs + ys) == Flatten(xs) + Flatten(ys)
    decreases |ys|
  {
    if ys == [] {
      assert xs + ys == xs;
    } else {
      var init, last := ys[..|ys| - 1], ys[|ys| - 1];
      assert (xs + ys)[..|xs + ys| - 1] == xs + init;
      assert (xs + ys)[|xs + ys| - 1] == last;
      FlattenAppend(xs, init);
      calc {
        Flatten(xs + ys);
        Flatten(xs + init) + last;
        Flatten(xs) + Flatten(init) + last;
        Flatten(xs) + (Flatten(init) + last);
        Flatten(xs) + Flatten(ys);
      }
    }
  }

  lemma FlattenSingleton(c: Chunk)
    ensures Flatten([c]) == c
  {
    assert [c][..0] == [];
  }

  /** serialize yields ceil(n / CHUNK_SIZE_BYTES) chunks, none for an empty image. */
  lemma {:induction false} ChunkCount(bytes: seq<int8>)
    ensures |Split(bytes)| == (|bytes| + ChunkSizeBytes - 1) / ChunkSizeBytes
    ensures |Split(bytes)| == 0 <==> |bytes| == 0
    decreases |bytes|
  {
    if |bytes| > ChunkSizeBytes {
      ChunkCount(bytes[ChunkSizeBytes..]);
    }
  }

  /** Every chunk is exactly CHUNK_SIZE_BYTES long, the last one included. */
  lemma {:induction false} ChunkSizes(bytes: seq<int8>)
    ensures forall k :: 0 <= k < |Split(bytes)| ==> |Split(bytes)[k]| == ChunkSizeBytes
    decreases |bytes|
  {
    if |bytes| > ChunkSizeBytes {
      ChunkSizes(bytes[ChunkSizeBytes..]);
    }
  }

  /**
   * Concatenating the chunks in order gives back the image followed by fewer
   * than CHUNK_SIZE_BYTES zero bytes; the image is a prefix of the result.
   */
  lemma Reassembly(bytes: seq<int8>)
    ensures Flatten(Split(bytes)) == bytes + Zeros(Padding(|bytes|))
    ensures Padding(|bytes|) < ChunkSizeBytes
    ensures bytes <= Flatten(Split(bytes))
  {
    ReassemblyImage(bytes);
    var padded := bytes + Zeros(Padding(|bytes|));
    assert padded[..|bytes|] == bytes;
  }

  lemma {:induction false} ReassemblyImage(bytes: seq<int8>)
    ensures Flatten(Split(bytes)) == bytes + Zeros(Padding(|bytes|))
    decreases |bytes|
  {
    if |bytes| == 0 {
      assert bytes + Zeros(0) == [];
    } else if |bytes| <= ChunkSizeBytes {
      ReassemblyLast(bytes);
    } else {
      var head, tail := bytes[..ChunkSizeBytes], bytes[ChunkSizeBytes..];
      var zeros := Zeros(Padding(|bytes|));
      FlattenSplitStep(bytes);
      ReassemblyImage(tail);
      assert Padding(|tail|) == Padding(|bytes|);
      calc {
        Flatten(Split(bytes));
        head + Flatten(Split(tail));
        head + (tail + zeros);
        (head + tail) + zeros;
        { assert head + tail == bytes; }
        bytes + zeros;
      }
    }
  }

  lemma ReassemblyLast(bytes: seq<int8>)
    requires 0 < |bytes| <= ChunkSizeBytes
    ensures Flatten(Split(bytes)) == bytes + Zeros(Padding(|bytes|))
  {
    FlattenSingleton(bytes + Zeros(ChunkSizeBytes - |bytes|));
  }

  lemma FlattenSplitStep(bytes: seq<int8>)
    requires |bytes| > ChunkSizeBytes
    ensures Flatten(Split(bytes)) == bytes[..ChunkSizeBytes] + Flatten(Split(bytes[ChunkSizeBytes..]))
  {
    var head, tail := bytes[..ChunkSizeBytes], bytes[ChunkSizeBytes..];
    assert Split(bytes) == [head] + Split(tail);
    FlattenAppend([head], Split(tail));
    FlattenSingleton(head);
  }

  /**
   * serialize: the encoder's image (None when it throws), cut into chunks with
   * copyOfRange in an index-stepping loop.
   */
  method Serialize<T>(obj: T, encode: T -> Option<seq<int8>>) returns (result: Option<seq<Chunk>>)
    ensures encode(obj).None? ==> result == None
    ensures encode(obj).Some? ==> result == Some(Split(encode(obj).value))
  {
    var image := encode(obj);
    if image.None? {
      return None;
    }
    var bytes := image.value;
    var chunks: seq<Chunk> := [];
    var i := 0;
    while i < |bytes|
      invariant i <= |bytes| ==> chunks + Split(bytes[i..]) == Split(bytes)
      invariant i > |bytes| ==> chunks == Split(bytes)
      decreases |bytes| - i
    {
      var chunk := CopyOfRange(bytes, i, i + ChunkSizeBytes);
      if i + ChunkSizeBytes < |bytes| {
        assert bytes[i..][ChunkSizeBytes..] == bytes[i + ChunkSizeBytes..];
        assert chunk == bytes[i..][..ChunkSizeBytes];
      } else {
        assert chunk == bytes[i..] + Zeros(ChunkSizeBytes - |bytes[i..]|);
        assert i + ChunkSizeBytes == |bytes| ==> bytes[i + ChunkSizeBytes..] == [];
      }
      chunks := chunks + [chunk];
      i := i + ChunkSizeBytes;
    }
    assert bytes[|bytes|..] == [];
    return Some(chunks);
  }

  /** deserialize: writes every chunk, in order, to one output stream and decodes it. */
  method Deserialize<T>(data: seq<Chunk>, decode: seq<int8> -> Decoded<T>) returns (result: Decoded<T>)
    ensures result == decode(Flatten(data))
  {
    var out: seq<int8> := [];
    for k := 0 to |data|
      invariant out == Flatten(data[..k])
    {
      assert data[..k + 1][..k] == data[..k];
      out := out + data[k];
    }
    assert data[..|data|] == data;
    result := decode(out);
  }

  class LargeMessageProxy {
    /** messageChunks: every chunk received since the last completed stream, in arrival order. */
    var messageChunks: seq<Chunk>

    constructor ()
      ensures messageChunks == []
    {
      messageChunks := [];
    }

    /**
     * handle(LargeMessage): resolve the receiver's proxy, then serialize; either
     * failure returns before any stream is built. Otherwise the chunks are
     * streamed to the resolved proxy, followed by a completion marker carrying
     * the requester (`sender`) and the message's receiver.
     */
    method HandleLargeMessage<T>(message: LargeMessage<T>, sender: ActorRef,
                                 resolveOne: seq<string> -> Option<ActorRef>,
                                 encode: T -> Option<seq<int8>>) returns (outcome: SendOutcome)
      ensures resolveOne(ProxyPath(message.receiver)).None? ==> outcome == ProxyNotResolved
      ensures resolveOne(ProxyPath(message.receiver)).Some? && encode(message.message).None? ==>
                outcome == NotSerializable
      ensures resolveOne(ProxyPath(message.receiver)).Some? && encode(message.message).Some? ==>
                outcome == Streaming(resolveOne(ProxyPath(message.receiver)).value,
                                     Split(encode(message.message).value),
                                     StreamCompleted(sender, message.receiver))
    {
      var receiver := message.receiver;
      var receiverProxy := resolveOne(ProxyPath(receiver));
      if receiverProxy.None? {
        return ProxyNotResolved;
      }
      var completion := StreamCompleted(sender, receiver);
      var messageContents := Serialize(message.message, encode);
      if messageContents.None? {
        return NotSerializable;
      }
      outcome := Streaming(receiverProxy.value, messageContents.value, completion);
    }

    /** handle(byte[]): appends the chunk to the buffer and changes nothing else. */
    method HandleChunk(messageChunk: Chunk)
      modifies this
      ensures messageChunks == old(messageChunks) + [messageChunk]
    {
      messageChunks := messageChunks + [messageChunk];
    }

    /**
     * handle(StreamCompleted): decodes the buffered chunks, always resets the
     * buffer, and delivers a decoded non-null value, once, to the marker's
     * receiver with the marker's sender as sender.
     */
    method HandleStreamCompleted<T>(completed: StreamCompleted, decode: seq<int8> -> Decoded<T>)
      returns (delivery: Option<Delivery<T>>)
      modifies this
      ensures messageChunks == []
      ensures delivery.Some? <==> decode(Flatten(old(messageChunks))).Object?
      ensures delivery.Some? ==>
                delivery.value == Delivery(completed.receiver, decode(Flatten(old(messageChunks))).value, completed.sender)
    {
      var message := Deserialize(messageChunks, decode);
      messageChunks := [];
      if message.Object? {
        delivery := Some(Delivery(completed.receiver, message.value, completed.sender));
      } else {
        delivery := None;
      }
    }

    /** handle(StreamFailure): only logs; in particular the buffer is kept. */
    method HandleStreamFailure()
      modifies this
      ensures messageChunks == old(messageChunks)
    {
    }
  }

  /**
   * The stream run by `handle(LargeMessage)`, taken one message at a time with
   * nothing interleaved: every chunk in order, then the completion marker.
   * Chunks left in the buffer by an earlier, failed stream are decoded along
   * with the new ones.
   */
  method RunStream<T>(proxy: LargeMessageProxy, chunks: seq<Chunk>, completion: StreamCompleted,
                      decode: seq<int8> -> Decoded<T>) returns (delivery: Option<Delivery<T>>)
    modifies proxy
    ensures proxy.messageChunks == []
    ensures delivery.Some? <==> decode(Flatten(old(proxy.messageChunks)) + Flatten(chunks)).Object?
    ensures delivery.Some? ==>
              delivery.value == Delivery(completion.receiver,
                                         decode(Flatten(old(proxy.messageChunks)) + Flatten(chunks)).value,
                                         completion.sender)
  {
    for k := 0 to |chunks|
      invariant proxy.messageChunks == old(proxy.messageChunks) + chunks[..k]
    {
      assert chunks[..k + 1] == chunks[..k] + [chunks[k]];
      proxy.HandleChunk(chunks[k]);
    }
    assert chunks[..|chunks|] == chunks;
    FlattenAppend(old(proxy.messageChunks), chunks);
    delivery := proxy.HandleStreamCompleted(completion, decode);
  }

  /**
   * End to end, from an empty buffer: a decoder that reads one object and
   * ignores trailing bytes (as readObject does) decodes the original image.
   */
  lemma EndToEnd<T>(image: seq<int8>, decode: seq<int8> -> Decoded<T>)
    requires forall p :: 0 <= p < ChunkSizeBytes ==> decode(image + Zeros(p)) == decode(image)
    ensures decode(Flatten([]) + Flatten(Split(image))) == decode(image)
  {
    Reassembly(image);
    assert Flatten([]) + Flatten(Split(image)) == image + Zeros(Padding(|image|));
  }
}
