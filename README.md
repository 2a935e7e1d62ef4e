# akka-tutorial core in Dafny

This project models the sequential core of the `dey4ss/akka-tutorial`
repository. It has two parts: the large-message proxy of `ddm-lmp`, and the
password cracker's building blocks in `ddm-pc`. It then proves what that code
promises about them.

## The large-message proxy (`large_messages.dfy`)

The sender side:
- `HandleLargeMessage` resolves the receiver's proxy.
- It serializes the payload.
- It cuts the byte image into 1 MiB chunks with `Arrays.copyOfRange`, in the
  index-stepping loop of `Serialize`.

The receiver side:
- `LargeMessageProxy` keeps one shared `messageChunks` buffer.
- `HandleChunk` appends an incoming chunk to it.
- `HandleStreamCompleted` decodes the concatenation (`Deserialize`), always
  clears the buffer, and delivers a non-null value to the marker's receiver,
  with the marker's sender as sender.

`Split` is the reference definition of the chunking, and `Flatten` that of the
concatenation. Because `copyOfRange` zero-pads the last chunk, the image that
comes back is the original followed by fewer than 1 MiB of zero bytes
(`Reassembly`). `EndToEnd` shows that a decoder that ignores trailing bytes
still recovers the payload.

`RunStream` runs one stream against the proxy with nothing interleaved: the
chunks, then the completion marker. Chunks left in the buffer by an earlier
failed stream are decoded together with the new ones, because the code has one
buffer per proxy and no session ids.

## The brute-force worker (`heap_spec.dfy`, `worker.dfy`, `hex.dfy`)

`HeapPermutation` permutes a `char` array in place. It stops at the first
arrangement whose hash matches, with the `Finished` throw modelled as a `Some`
result. Its contract ties it to `Search`, a functional model of the same early
exit. The meaning of `Search` is proved in these lemmas:
- `SearchIsFirstMatch`: it finds the first match in the order `HeapSpec.Leaves`
  lists the candidates.
- `HeapSpec.LeafCount`: without an early exit there are `size!` candidates.
- `HeapSpec.LeavesSound` and `HeapSpec.LeavesComplete`: the candidates are
  exactly the arrangements of the first `size` characters, and the rest of the
  array stays untouched.
- `HeapSpec.AfterEffect`: the array after a full call is unchanged for odd
  `size` and rotated right by one for even `size`.

The other worker members:
- `Hash` is the hex loop over a digest. The hex formatting is a separate
  module; `Hex.HexRoundTrip` shows it loses nothing (`Hex.ParseHex`, its inverse, reads pairs from the back and ignores a lone leading digit, which hex text never has).
- `HasHash` compares a hash with the hash of a candidate. `Matches` is that comparison against the candidate's text as `HexDigest` forms it, and the search lemmas speak of `Matches`.
- `ConvertCharSet` copies a set into an array.
- `Resolve` removes the used characters from the caller's own set object (the
  `CharacterSet` class captures the aliasing) and returns one that is left.
- `HandleHint` is the `handle(Hint)` driver as written. `HandleHintCorrected`
  is the same driver with the search size the algorithm needs (see Findings).

## Character sets and persons (`char_sets.dfy`, `char_set_manager.dfy`, `person.dfy`)

- `ParseChars` turns a string into its set of characters. `CharSetManager.parseChars` and `Person.parseChars` (Person.java lines 39-45) are the same code, so it is modelled once.
- `Enumerate` stands for iterating a `HashSet`, whose order Java leaves open:
  it yields some order that lists each element once.
- `CharSetManager` holds, for each character `c` of the original set, the pair
  (set without `c`, `c`). `Next` hands these pairs out from the front, and
  `Reset` regenerates the list reversed.
- `Person.FromList` reads a CSV row, failing in the order the Java expression
  evaluation would.
- `DropChar` and `HasAllHints` track solved hints. `DropHintChars` shows that
  after dropping as many distinct present characters as there are hints,
  `HasAllHints` holds.

## Modelling choices

- Java `byte` is `Bytes.int8` (−128..127). `& 0xff` is `Bytes.Unsigned`.
- Java serialization (`ObjectOutputStream`/`ObjectInputStream`), SHA-256 with
  the UTF-8 encoding before it, actor resolution and `Integer.parseInt` are
  function parameters (`encode`, `decode`, `digest`, `resolveOne`, `parseInt`).
- Each exception the core catches or lets escape is an `Option`/`Result` error
  value:
  - `IOException` / `ClassNotFoundException` in (de)serialization;
  - an `ArrayIndexOutOfBoundsException` on a short CSV row or message line;
  - a `NumberFormatException`;
  - `IndexOutOfBoundsException` in `next` on an empty list;
  - `NoSuchElementException` in `resolve`.
- The code has no session ids, sequence numbers, acknowledgements or credit window. It keeps one buffer per proxy, and the reassembled image is zero-padded. The model follows the code.

## Model

| member | source | states |
|---|---|---|
| Bytes.Unsigned | ddm-pc/src/main/java/de/hpi/ddm/actors/Worker.java:146 | `b & 0xff` is below 256, agrees with `b` modulo 256, and equals `b` for non-negative bytes |
| LargeMessages.CopyOfRange | ddm-lmp/src/main/java/de/hpi/ddm/actors/LargeMessageProxy.java:149 | the result has `to - from` bytes: the original's where they exist, zero past its end |
| LargeMessages.Serialize | ddm-lmp/src/main/java/de/hpi/ddm/actors/LargeMessageProxy.java:140-152 | no chunks when the encoder fails; otherwise the index-stepping copyOfRange loop yields exactly the reference chunking `Split` of the image |
| LargeMessages.ChunkCount | ddm-lmp/src/main/java/de/hpi/ddm/actors/LargeMessageProxy.java:148-150 | the number of chunks is ceil(n / CHUNK_SIZE_BYTES), and zero exactly for an empty image |
| LargeMessages.ChunkSizes | ddm-lmp/src/main/java/de/hpi/ddm/actors/LargeMessageProxy.java:148-149 | every chunk, the last one included, is exactly CHUNK_SIZE_BYTES long |
| LargeMessages.Reassembly | ddm-lmp/src/main/java/de/hpi/ddm/actors/LargeMessageProxy.java:148-150 | concatenating the chunks gives the image followed by fewer than CHUNK_SIZE_BYTES zero bytes; the image is a prefix |
| LargeMessages.Deserialize | ddm-lmp/src/main/java/de/hpi/ddm/actors/LargeMessageProxy.java:153-165 | the decoder is applied to the chunks written in order into one stream |
| LargeMessages.EndToEnd | ddm-lmp/src/main/java/de/hpi/ddm/actors/LargeMessageProxy.java:140-165 | a decoder that ignores trailing zero bytes decodes the chunked image to the value of the original image |
| LargeMessages.LargeMessageProxy.constructor | ddm-lmp/src/main/java/de/hpi/ddm/actors/LargeMessageProxy.java:36 | a new proxy starts with an empty chunk buffer |
| LargeMessages.LargeMessageProxy.HandleLargeMessage | ddm-lmp/src/main/java/de/hpi/ddm/actors/LargeMessageProxy.java:83-112 | returns before streaming if the proxy cannot be resolved or the payload cannot be serialized; otherwise streams the image's chunks to the resolved proxy, with a completion marker carrying the requester and the message's receiver |
| LargeMessages.ProxyPath | ddm-lmp/src/main/java/de/hpi/ddm/actors/LargeMessageProxy.java:89 | the receiver's proxy path is a child of the receiver's own path, named DEFAULT_NAME |
| LargeMessages.ProxyPathInjective | ddm-lmp/src/main/java/de/hpi/ddm/actors/LargeMessageProxy.java:89 | different receivers have their proxies at different paths |
| LargeMessages.LargeMessageProxy.HandleChunk | ddm-lmp/src/main/java/de/hpi/ddm/actors/LargeMessageProxy.java:114-116 | the chunk is appended at the end of the buffer and nothing else changes |
| LargeMessages.LargeMessageProxy.HandleStreamCompleted | ddm-lmp/src/main/java/de/hpi/ddm/actors/LargeMessageProxy.java:118-134 | the buffer is empty afterwards whatever decoding does; a delivery happens exactly when decoding gives a non-null object, and goes to the marker's receiver with the marker's sender |
| LargeMessages.LargeMessageProxy.HandleStreamFailure | ddm-lmp/src/main/java/de/hpi/ddm/actors/LargeMessageProxy.java:136-138 | the buffer is left as it was |
| LargeMessages.RunStream | ddm-lmp/src/main/java/de/hpi/ddm/actors/LargeMessageProxy.java:109-111 | after the chunks and the marker arrive, the buffer is empty and the value delivered is the decoding of the old buffer's bytes followed by the stream's bytes |
| Hex.ByteTextDigits | ddm-pc/src/main/java/de/hpi/ddm/actors/Worker.java:146 | `Integer.toString((b & 0xff) + 0x100, 16).substring(1)` is the two lower-case digits of the byte, high half first, leading zero kept |
| Hex.ToStringRadix16 | ddm-pc/src/main/java/de/hpi/ddm/actors/Worker.java:146 | `Integer.toString(v, 16)` is a non-empty string of lower-case hexadecimal digits, without a leading zero unless `v` is 0, whose value is `v` |
| Hex.ByteText | ddm-pc/src/main/java/de/hpi/ddm/actors/Worker.java:146 | the text appended for one byte is two lower-case hexadecimal digits whose value is the byte's unsigned value |
| Hex.HexStringShape | ddm-pc/src/main/java/de/hpi/ddm/actors/Worker.java:144-148 | the text has two characters per digest byte, all lower-case hexadecimal digits |
| Hex.HexRoundTrip | ddm-pc/src/main/java/de/hpi/ddm/actors/Worker.java:144-148 | reading the text back two digits at a time gives every byte's unsigned value |
| Worker.Hash | ddm-pc/src/main/java/de/hpi/ddm/actors/Worker.java:139-153 | the loop's text is the hex text of the digest, twice as long as the digest |
| Worker.HasHash | ddm-pc/src/main/java/de/hpi/ddm/actors/Worker.java:195-198 | true exactly when the hash equals the hex digest of the string |
| Worker.FirstMatchSpec | ddm-pc/src/main/java/de/hpi/ddm/actors/Worker.java:160-164 | a found candidate matches and no earlier candidate does; nothing is found exactly when no candidate matches |
| Worker.HeapPermutation | ddm-pc/src/main/java/de/hpi/ddm/actors/Worker.java:158-184 | the result is the early-exit search `Search` of the initial array; on a match the array holds the solution, otherwise it is left as `After` describes |
| Worker.SwapAfterCall | ddm-pc/src/main/java/de/hpi/ddm/actors/Worker.java:170-183 | the swap after the `i`-th recursive call leaves the array as `HeapSpec.Step` says: first and last exchanged for odd `size`, `i`-th and last for even `size` |
| Worker.SwapElements | ddm-pc/src/main/java/de/hpi/ddm/actors/Worker.java:171-182 | the array afterwards is the old one with the two positions exchanged |
| Worker.SearchIterStable | ddm-pc/src/main/java/de/hpi/ddm/actors/Worker.java:163-168 | once an iteration has found a match, the later iterations change nothing |
| Worker.SearchIsFirstMatch | ddm-pc/src/main/java/de/hpi/ddm/actors/Worker.java:158-184 | the early-exit search finds the first matching candidate in the order the leaf checks happen |
| Worker.SearchOutcome | ddm-pc/src/main/java/de/hpi/ddm/actors/Worker.java:158-184 | a found array matches and is an arrangement of the first `size` characters; for `size > 0` nothing is found exactly when no such arrangement matches |
| HeapSpec.AfterIsArrangement | ddm-pc/src/main/java/de/hpi/ddm/actors/Worker.java:167-183 | a full call only permutes the first `size` elements: their multiset is kept and later positions are never written |
| HeapSpec.StepIsArrangement | ddm-pc/src/main/java/de/hpi/ddm/actors/Worker.java:171-182 | each swap (first and last for odd size, i-th and last for even) keeps the multiset of the first `size` elements and the rest |
| HeapSpec.AfterEffect | ddm-pc/src/main/java/de/hpi/ddm/actors/Worker.java:167-183 | a full call leaves the first `size` elements as they were for odd `size` and rotated right by one for even `size` |
| HeapSpec.LeafCount | ddm-pc/src/main/java/de/hpi/ddm/actors/Worker.java:155-168 | without an early exit the check at size 1 runs `size!` times |
| HeapSpec.LeavesSound | ddm-pc/src/main/java/de/hpi/ddm/actors/Worker.java:158-184 | every checked candidate is an arrangement of the first `size` characters with the rest untouched |
| HeapSpec.LeavesComplete | ddm-pc/src/main/java/de/hpi/ddm/actors/Worker.java:158-184 | every arrangement of the first `size` characters is checked, for `size >= 1` |
| Worker.ConvertCharSet | ddm-pc/src/main/java/de/hpi/ddm/actors/Worker.java:186-193 | a fresh array of length \|charSet\| that lists each element of the set exactly once |
| Worker.CharacterSet.constructor | ddm-pc/src/main/java/de/hpi/ddm/actors/Worker.java:200-207 | a set object holding the given characters; `Resolve` updates it through the caller's reference |
| Worker.Resolve | ddm-pc/src/main/java/de/hpi/ddm/actors/Worker.java:200-209 | every character of the array is removed from the caller's set object and nothing else is; the returned character is one that remains; no result exactly when none remains |
| Worker.HandleHint | ddm-pc/src/main/java/de/hpi/ddm/actors/Worker.java:123-137 | with the search started at `chars.length - 1`: the solution is the first match among those candidates, failure is reported exactly when there is none, and a solution matches and permutes the hint's characters |
| Worker.HandleHintCorrected | ddm-pc/src/main/java/de/hpi/ddm/actors/Worker.java:123-137 | with the search started at `chars.length`: for a non-empty set, failure is reported exactly when no arrangement of the hint's characters has the hash |
| Worker.AsWrittenKeepsLast | ddm-pc/src/main/java/de/hpi/ddm/actors/Worker.java:128 | as written, every candidate keeps the enumeration's last character in last place |
| Worker.AsWrittenMissesPassword | ddm-pc/src/main/java/de/hpi/ddm/actors/Worker.java:128 | as written, for the characters "ab" and a hash made from "ba", the search finds nothing although "ba" matches |
| CharSets.ParseChars | ddm-pc/src/main/java/de/hpi/ddm/structures/CharSetManager.java:43-49 | the set holds exactly the characters of the string, so it is no larger than the string |
| CharSets.Enumerate | ddm-pc/src/main/java/de/hpi/ddm/structures/CharSetManager.java:53 | iterating a set lists every element exactly once, in some order |
| CharSetManagement.GenerateSubsets | ddm-pc/src/main/java/de/hpi/ddm/structures/CharSetManager.java:51-59 | one entry per character; each entry's excluded character is in the set, and its members are the set without it; the excluded characters are distinct and make up the whole set |
| CharSetManagement.SubsetShape | ddm-pc/src/main/java/de/hpi/ddm/structures/CharSetManager.java:53-56 | an entry's excluded character is not among its members, which number one fewer than the set |
| CharSetManagement.Reverse | ddm-pc/src/main/java/de/hpi/ddm/structures/CharSetManager.java:40 | `Collections.reverse`: same length, element `j` is the old element `n - 1 - j` |
| CharSetManagement.ReverseSubsetList | ddm-pc/src/main/java/de/hpi/ddm/structures/CharSetManager.java:38-41 | the reverse of a full subset list is again a full subset list |
| CharSetManagement.CharSetManager.constructor | ddm-pc/src/main/java/de/hpi/ddm/structures/CharSetManager.java:23-26 | the original set holds the string's characters and the list is a full subset list of it |
| CharSetManagement.CharSetManager.FromMessageLine | ddm-pc/src/main/java/de/hpi/ddm/structures/CharSetManager.java:19-21 | fails exactly when the line has no third field; otherwise a manager over that field's characters |
| CharSetManagement.CharSetManager.HasNext | ddm-pc/src/main/java/de/hpi/ddm/structures/CharSetManager.java:28-30 | for a full subset list, there is a next entry exactly when the original set is not empty; a valid list over an empty set has none |
| CharSetManagement.CharSetManager.Next | ddm-pc/src/main/java/de/hpi/ddm/structures/CharSetManager.java:28-36 | fails exactly when `hasNext()` is false; otherwise returns the head and leaves the tail in order; the returned character is not excluded by any remaining entry |
| CharSetManagement.CharSetManager.Reset | ddm-pc/src/main/java/de/hpi/ddm/structures/CharSetManager.java:38-41 | the list becomes the reverse of a freshly generated full subset list of the unchanged original set |
| Persons.GetHintHashes | ddm-pc/src/main/java/de/hpi/ddm/structures/Person.java:47-53 | the hints are the fields from index 5 on, in order, and none for a row of at most five fields |
| Persons.Person.constructor | ddm-pc/src/main/java/de/hpi/ddm/structures/Person.java:11-20 | every field holds its argument |
| Persons.Person.FromList | ddm-pc/src/main/java/de/hpi/ddm/structures/Person.java:22-29 | fails at the first missing or non-numeric field in Java's evaluation order; otherwise id, name, characters, length, hash and hints come from fields 0, 1, 2, 3, 4 and 5 on, finalCharSetSize is \|charSet\| − \|hints\|, and hasAllHints holds exactly when there are no hints |
| Persons.Person.DropChar | ddm-pc/src/main/java/de/hpi/ddm/structures/Person.java:31-33 | removes exactly `c`; the size drops by one when `c` was present and is unchanged otherwise |
| Persons.Person.HasAllHints | ddm-pc/src/main/java/de/hpi/ddm/structures/Person.java:35-37 | while the set has the size `fromList` read, hasAllHints holds exactly when there are no hints |
| Persons.DropAll | ddm-pc/src/main/java/de/hpi/ddm/structures/Person.java:31-33 | after a series of dropChar calls the set is a subset of the old one without any dropped character |
| Persons.DropAllSize | ddm-pc/src/main/java/de/hpi/ddm/structures/Person.java:31-37 | dropping distinct characters that are present shrinks the set by their number |
| Persons.HintsCompleteAfterDrops | ddm-pc/src/main/java/de/hpi/ddm/structures/Person.java:31-37 | dropping as many distinct present characters as there are hints leaves a set of size \|charSet\| − \|hints\|, the finalCharSetSize `fromList` sets |
| Persons.DropChars | ddm-pc/src/main/java/de/hpi/ddm/structures/Person.java:31-33 | a series of dropChar calls leaves the person's set as `DropAll` of the old set and the dropped characters |
| Persons.DropHintChars | ddm-pc/src/main/java/de/hpi/ddm/structures/Person.java:31-37 | for a person whose finalCharSetSize is as `fromList` set it, dropping as many distinct characters of its set as it has hints makes hasAllHints() true |

## Left out

- Akka actor plumbing is not modelled: `createReceive`, `tell`, `actorSelection(...).resolveOne(timeout)` and the blocking `.get()`. Resolution is a parameter that succeeds or fails.
- Akka Streams (`Source.from`, `buffer(BUFFER_SIZE, backpressure)`, `Sink.actorRef`, the materializer) is not modelled: it is a concurrent runtime library. `RunStream` stands for one run delivered in order with nothing interleaved. `BUFFER_SIZE` and backpressure have no counterpart.
- Java object serialization and SHA-256 with UTF-8 encoding are foreign code. They are the `encode`, `decode` and `digest` parameters.
- `Integer.valueOf` / `Integer.parseInt` are the `parseInt` parameter; Java's decimal syntax and 32-bit range are not modelled.
- Logging, `System.out.println`, `printStackTrace` and the debug comparison in `hasHash` are left out: they are output only.
- Cluster membership and lifecycle of the worker are left out: `preStart`, `postStop`, `handle(CurrentClusterState)`, `handle(MemberUp)`, `register`, `handle(MemberRemoved)` and the reaper.
- HashSet iteration order is unspecified, so `CharSets.Enumerate` picks any order that lists each element once.
- LargeMessages.Serialize: the index `i += CHUNK_SIZE_BYTES` is a Java `int`, which overflows for images longer than 2^31 − 2^20 bytes (copyOfRange would then throw); the model's indices are unbounded and it does not capture that case.
- Java `char` is a UTF-16 code unit; the model's `char` is a Dafny character. No surrogate handling is involved in the modelled code.
- `heapPermutation`'s unused parameter `n` is dropped.
- Persons.DropChars and Persons.DropHintChars stand for a caller that calls `dropChar` once per solved hint. No caller of `dropChar` or `hasAllHints` is part of this model.
- Worker.HeapPermutation: its contract ties the result to `Search` and `After`. That the array is only permuted (multiset kept, suffix untouched) is stated by the lemmas `HeapSpec.AfterIsArrangement` and `Worker.SearchOutcome` about those functions, not by the method's own ensures.

## Findings

| source | as written | input that shows it | evidently intended | confidence | as-written member | corrected member |
|---|---|---|---|---|---|---|
| ddm-pc/src/main/java/de/hpi/ddm/actors/Worker.java:128 | `heapPermutation(chars, chars.length - 1, ...)` permutes only the first n−1 characters, so the last character of the enumeration never moves and only (n−1)! of the n! arrangements are tried | the hint characters {a, b} enumerated as "ab", with the hash of "ba": only "ab" is checked and the search reports failure | search size `chars.length`, so every arrangement of the hint's characters is tried | high (proved; not executed) | Worker.HandleHint, Worker.AsWrittenMissesPassword, Worker.AsWrittenKeepsLast | Worker.HandleHintCorrected |
