# libkmip, modelled and proved in Dafny

This project models the parts of libkmip that decide what goes over the wire,
what comes back from it, and who owns a connection, and proves what they keep
for every input, every server and every interleaving.

- `Ttlv`, `Buffers`, `TtlvCodec`: the TTLV printer over the growable
  `SerializationBuffer`, and the recursive, depth-limited parser. `Encode` says
  what the encoding of a tree is, independently of both. The printer appends
  exactly `Encode(e)`; the parser accepts a prefix of its input exactly when it is
  `Encode(e)` of a tree nested at most 64 deep, and `Encode` is prefix free.
- `Wire`: the bytes of an element as section 9.1 of KMIP 1.4 has them, with every
  code and weight written out; `Encode` is exactly that.
- `Elements`, `Protocol`, `Messages`: request and response messages, their trees
  and their bytes, batch item ids, and the correlation of response items.
  `MessageTrees` has the trees and what is read from them tag by tag.
- `Framing`: one exchange over a transport that delivers in chunks of any size
  and may fail at any call.
- `Locate`, `Probing`, `LocateReply`: the search for ids against any server: paging,
  the single-page fallback, probing; and one page over the wire, which shows how many
  ids a reply within its response limit can hold.
- `Pool`, `PoolHealth`, `PoolObjects`: the connection pool as a step system of any
  number of threads, which slots it keeps, and its objects as one thread sees them.
- `Encoding`, `KeyText`: Base64 (RFC 4648 sections 3.5 and 4), hexadecimal, and
  the SYMMETRIC KEY text form around the former; `Alphabets` has their tables
  character by character.
- `Printing`, `Formatter`, `TtlvLog`, `Redaction`: the text of a tree or a message for
  the log, and exactly what it shows and keeps to itself.
- `Keys`, `GetKey`: the Register payload and the Get parser, and the retries and
  Key Format Type negotiation of fetching a key.

Exceptions are `Result` values with the code of the exception; a message-only
exception has code 0x100. Clocks, randomness and the network are parameters or
scripts: the transport is a list of outcomes, a Locate or Get server is a
function from the position of a request and the request to a reply. Widths are
explicit where they matter (32-bit ids, lengths and casts, the wrapping Base64
accumulator, `size_t` page sizes); other sizes are unbounded. An element's type
field is the constructor of its value, and its tag has 24 bits.
`vector::reserve(n)` gives capacity n. A text string is read as the slice of
its bytes.

Six things the code does that its documentation does not say:

- A default buffer holds at most 64 MiB although the limit is documented as
  100 MB: its capacity doubles from 8192, and 128 MiB is over the limit
  (`Buffers.DefaultLimit`).
- A tree nested deeper than 64 is serialized but not read back
  (`TtlvCodec.RoundTrip`, an equivalence; `TtlvCodec.DeepTree` gives such trees).
- The empty byte string becomes the empty hexadecimal string, which the decoder
  refuses (`Encoding.HexRoundTrip`, an equivalence).
- In the paging loop, the branch for an offset that has reached the known total
  is never taken: without repeats the offset is the number of ids, which was
  compared with the total before (`Locate.TotalBranchIsDead`).
- In KMIP 1.x a generic attribute named "Cryptographic Algorithm" or
  "Cryptographic Length" goes out as a text under that name, next to the pair of
  the key block or without one, so that the two disagree
  (`Keys.RegisterKeyRequest`, an equivalence; `Keys.NamedTwice` gives such a key).
- A request whose length as an int is positive but less than its size, so of more
  than 2^32 bytes, is reported as sent after a part of it. Requests that the
  message layer builds are at most 64 MiB and go out whole
  (`Framing.PartSent` gives such a request, `Framing.ExchangeMessage`).

## Model

| member | source | states |
|---|---|---|
| `Buffers.LeastDoublingIsLeast` | kmipcore/src/serialization_buffer.cpp:90-111 | the capacity chosen is some c*2^k and the least one that holds what is required |
| `Buffers.LimitIsLeastDoubling` | kmipcore/src/serialization_buffer.cpp:90-111 | a total fits the limit of a capacity exactly when the least doubling that holds it is within MAX_CAPACITY, and growing keeps the limit |
| `Buffers.DefaultLimit` | kmipcore/include/kmipcore/serialization_buffer.hpp:43-51 | default and shrunk buffers can grow to 64 MiB and no further |
| `Buffers.SerializationBuffer.constructor` | kmipcore/src/serialization_buffer.cpp:17-22 | an empty sequence with the capacity asked for |
| `Buffers.SerializationBuffer.ExpandCapacity` | kmipcore/src/serialization_buffer.cpp:90-111 | succeeds exactly within the limit, with the least doubling; otherwise the capacity stays |
| `Buffers.SerializationBuffer.EnsureSpace` | kmipcore/src/serialization_buffer.cpp:80-88 | succeeds exactly when the total fits the limit; contents untouched |
| `Buffers.SerializationBuffer.WriteByte` | kmipcore/src/serialization_buffer.cpp:24-33 | appends the byte, or changes nothing; succeeds exactly within the limit |
| `Buffers.SerializationBuffer.WriteBytes` | kmipcore/src/serialization_buffer.cpp:35-51 | appends the bytes, whatever stale bytes lie behind the write position, or changes nothing |
| `Buffers.SerializationBuffer.WritePadded` | kmipcore/src/serialization_buffer.cpp:53-78 | appends the bytes and zeros to the next multiple of 8; a failure leaves no partial padding |
| `Buffers.SerializationBuffer.Reset` | kmipcore/include/kmipcore/serialization_buffer.hpp:121-125 | the sequence is empty again, capacity kept |
| `Buffers.SerializationBuffer.Release` | kmipcore/src/serialization_buffer.cpp:113-131 | hands out exactly what was written and leaves an empty buffer |
| `Buffers.SerializationBuffer.Shrink` | kmipcore/src/serialization_buffer.cpp:133-139 | an empty buffer of capacity zero |
| `Ttlv.EncodeAligned` | kmipcore/src/kmip_basics.cpp:75-167 | every encoding is a positive multiple of 8 bytes |
| `Ttlv.EncodePrefixFree` | kmipcore/src/kmip_basics.cpp:75-167 | no encoding is a proper prefix of another, and equal encodings are of equal trees |
| `Ttlv.EncodeAllInjective` | kmipcore/src/kmip_basics.cpp:210-237 | a run of encodings determines the list of children |
| `Wire.EncodeIsOnWire` | kmipcore/src/kmip_basics.cpp:75-167 | the bytes of every element, with every code written out: three bytes of tag, the type code 1 to 11, four bytes of length, the value in two's complement or as it is, zeros up to a multiple of eight, children one after the other; these bytes, and no others, are the encoding |
| `Wire.Print` | kmipcore/src/kmip_basics.cpp:75-167 | the bytes that a fresh buffer yields are those of the element on the wire, whenever every length has room and they are within 64 MiB |
| `Wire.Parse` | kmipcore/src/kmip_basics.cpp:169-354 | an element is read exactly if the bytes of some element nested at most 64 deep stand at the offset, and the offset moves past them |
| `TtlvCodec.Serialize` | kmipcore/src/kmip_basics.cpp:75-167 | appends exactly the encoding of the tree, and succeeds exactly when content and total fit the buffers, so no 32-bit length is truncated |
| `TtlvCodec.SerializeItems` | kmipcore/src/kmip_basics.cpp:89-94 | the children of a structure are encoded in order into their own buffer |
| `TtlvCodec.ValidateZeroPadding` | kmipcore/src/kmip_basics.cpp:58-73 | succeeds exactly when all padding bytes are zero |
| `TtlvCodec.DeserializeImpl` | kmipcore/src/kmip_basics.cpp:169-347 | succeeds exactly when some tree within the depth limit encodes to a prefix of the view, and then returns it and moves past exactly its encoding |
| `TtlvCodec.DeserializeItems` | kmipcore/src/kmip_basics.cpp:210-237 | the children parsed fill the declared length exactly, or the structure is refused |
| `TtlvCodec.ReadValueComplete` | kmipcore/src/kmip_basics.cpp:238-345 | a value of the declared type and length is read back from its own content |
| `TtlvCodec.Deserialize` | kmipcore/src/kmip_basics.cpp:349-354 | computes the one tree whose encoding starts at the offset, and the offset after it |
| `TtlvCodec.RoundTrip` | kmipcore/src/kmip_basics.cpp:75-347 | parsing a printed tree, between any other bytes, gives the tree back exactly when it is nested at most 64 deep |
| `TtlvCodec.Reprint` | kmipcore/src/kmip_basics.cpp:75-354 | parsing any bytes and printing what was parsed into a fresh buffer gives back exactly the bytes consumed, whenever they fit 64 MiB, and fails whenever nothing parses |
| `TtlvCodec.NestIsDeep` | kmipcore/src/kmip_basics.cpp:169-180 | n structures in one another take 8 bytes a level and are within a limit exactly when n is |
| `TtlvCodec.DeepTree` | kmipcore/src/kmip_basics.cpp:75-180 | more than 64 structures in one another are printed and then refused by the parser |
| `TtlvCodec.ToBytes` | kmipcore/src/kmip_basics.cpp:75-167 | a fresh buffer yields the encoding, exactly when it is within 64 MiB, and the bytes decode to the tree |
| `Elements.FindsFirst` | kmipcore/src/kmip_basics.cpp:424-431 | the child returned is the first with the tag |
| `Elements.Find` | kmipcore/src/kmip_basics.cpp:424-431 | a child with the tag, or a proof that there is none |
| `Elements.FieldsFound` | kmipcore/src/kmip_basics.cpp:424-451 | optional fields with distinct tags are found as they were added, present or absent |
| `Protocol.ValidateElementTypes` | kmipcore/src/kmip_protocol.cpp:28-46 | succeeds exactly when no node of the tree needs a later protocol version |
| `Protocol.DecodeBatchItemId` | kmipcore/src/kmip_protocol.cpp:58-71 | the big-endian value of one to four bytes, and an error for any other length |
| `Protocol.BatchItemIdRoundTrip` | kmipcore/src/kmip_protocol.cpp:48-70 | every 32-bit id survives its byte form |
| `Protocol.CredentialsRoundTrip` | kmipcore/src/kmip_protocol.cpp:125-151 | user name and password are read back, each present or absent |
| `Protocol.RequestHeaderRoundTrip` | kmipcore/src/kmip_protocol.cpp:103-215 | every request header is read back as written |
| `Protocol.RequestItemRoundTrip` | kmipcore/src/kmip_protocol.cpp:217-261 | a request item is read back exactly when its payload carries the Request Payload tag |
| `Protocol.ResponseHeaderRoundTrip` | kmipcore/src/kmip_protocol.cpp:379-411 | every response header is read back as written |
| `Protocol.ResponseItemRoundTrip` | kmipcore/src/kmip_protocol.cpp:413-498 | a response item is read back exactly when its payload carries its tag and, if it failed, it has a reason |
| `Protocol.ItemsRoundTrip` | kmipcore/src/kmip_protocol.cpp:364-368 | the items of a message are read back in order exactly when each one is |
| `Protocol.RequestRoundTrip` | kmipcore/src/kmip_protocol.cpp:336-377 | a request tree is read back exactly when it is valid for its version, its count is that of its items and its payloads are tagged |
| `Protocol.ResponseRoundTrip` | kmipcore/src/kmip_protocol.cpp:500-548 | likewise for responses, which may hold fewer items than declared but not more |
| `MessageTrees.RequestHeaderTree` | kmipcore/src/kmip_protocol.cpp:103-159 | a request header is Protocol Version, Maximum Response Size, Batch Order Option, Time Stamp, Authentication and Batch Count, in this order, with their tags and types, what is not set left out |
| `MessageTrees.ResponseHeaderTree` | kmipcore/src/kmip_protocol.cpp:379-390 | a response header is Protocol Version, Time Stamp and Batch Count, with their tags and types |
| `MessageTrees.RequestItemTree` | kmipcore/src/kmip_protocol.cpp:217-235 | a request item is its Operation, its id in four bytes, most significant first, unless that is zero, and its payload |
| `MessageTrees.ResponseItemTree` | kmipcore/src/kmip_protocol.cpp:413-445 | a response item is Operation, id, Result Status, Result Reason, Result Message and payload, in this order |
| `MessageTrees.RequestTree` | kmipcore/src/kmip_protocol.cpp:336-343 | a request is its header and then its items, in order, under their tags |
| `MessageTrees.ResponseTree` | kmipcore/src/kmip_protocol.cpp:500-508 | likewise a response |
| `MessageTrees.ResponseItemExactly` | kmipcore/src/kmip_protocol.cpp:447-498 | a response item is read exactly if it has a Result Status, a failure has a reason, and every field is of its own type; an id of other than one to four bytes reads as 0 |
| `MessageTrees.ResponseExactly` | kmipcore/src/kmip_protocol.cpp:510-548 | a response is read exactly if it has a header, nothing in it needs a later version, every batch item is read, in order, and they are no more than declared |
| `Messages.RequestMessage.AddBatchItem` | kmipcore/src/kmip_protocol.cpp:276-281 | items get the ids 1, 2, 3, ... in order of arrival |
| `Messages.RequestMessage.SetMaxResponseSize` | kmipcore/src/kmip_protocol.cpp:292-301 | succeeds exactly for sizes of an int32, else the header stays |
| `Messages.RequestMessage.Serialize` | kmipcore/src/kmip_protocol.cpp:309-334 | succeeds exactly for a non-empty, version-valid request within the buffer; its bytes decode to the caller's items, version, credentials and sizes, the time, and the number of items; several items are to be taken in order unless the caller said otherwise, and for one item nothing is said |
| `Messages.SentIsReadBack` | kmipcore/src/kmip_protocol.cpp:345-377 | the tree of a numbered request is within the nesting limit and is read back as it is |
| `Messages.ReadResponseItems` | kmipcore/src/kmip_protocol.cpp:529-533 | the loop over the children gives the items in order, or fails with the first bad one |
| `Messages.ReadResponse` | kmipcore/src/kmip_protocol.cpp:510-548 | computes the response of a tree, or fails exactly when there is none |
| `Messages.ResponseNested` | kmipcore/src/kmip_protocol.cpp:500-508 | a response tree is within the nesting limit exactly when its payloads are within two less |
| `Messages.ResponseBytesRoundTrip` | kmipcore/src/kmip_protocol.cpp:500-548 | a printed response whose failed items carry a reason is parsed from its bytes as it was |
| `Messages.ResponseParser.constructor` | kmipcore/src/response_parser.cpp:26-36 | the maps give, for every id requested, the last position and operation it was requested with |
| `Messages.ResponseParser.EnsureParsed` | kmipcore/src/response_parser.cpp:94-110 | parses exactly the byte strings that are one whole response; a failure leaves nothing behind |
| `Messages.ResponseParser.GetItemByBatchItemId` | kmipcore/src/response_parser.cpp:126-153 | the first item that echoes the id, else the one at the request's position, else an error |
| `Messages.Correlate` | kmipcore/src/response_parser.cpp:26-153 | for every request built by adding items and every printed response: the id of the k-th item is k + 1, and looking it up in the parsed bytes gives the first item that echoes it, in whatever order the server answers and whichever ids it echoes, else the item at position k, or an error if there is none |
| `Messages.PositionalCorrelation` | kmipcore/src/response_parser.cpp:126-153 | with the id not echoed, the item at the request's position is found, or an error if the response is too short |
| `Messages.OmittedOperation` | kmipcore/src/response_parser.cpp:38-62 | an item is reported under its own operation, or under the one requested if it leaves its own out |
| `Framing.IOUtils.Send` | kmipclient/src/IOUtils.cpp:55-76 | for every chunking and every size, what went out is a prefix of the request and, on success, at least its length as an int, so below 2^31 bytes all of it |
| `Framing.PartSent` | kmipclient/src/IOUtils.cpp:55-76 | a request longer than its length as an int is reported as sent after that many bytes |
| `Framing.IOUtils.ReadExact` | kmipclient/src/IOUtils.cpp:78-92 | for every chunking and every size, the buffer holds exactly the next bytes of the stream and, on success, at least its length as an int, so below 2^31 bytes it is full |
| `Framing.IOUtils.ReceiveMessage` | kmipclient/src/IOUtils.cpp:94-121 | returns exactly the one message the stream starts with and leaves the stream at the next one; over a reliable transport the message is returned exactly if the length it declares is within the limit asked for and 16 MiB, and refused as too long otherwise |
| `Framing.IOUtils.DoExchange` | kmipclient/src/IOUtils.cpp:123-140 | on success a prefix of the request went out, all of it below 2^31 bytes, and exactly one message came back; any failure is one of two transport codes and closes the connection; over a reliable transport the answer is returned exactly if the length it declares is within the limit asked for and 16 MiB |
| `Framing.ExchangeMessage` | kmipclient/src/KmipClient.cpp:322-325 | a request of the message layer goes out whole, whatever its items, and exactly one message within its Maximum Response Size, or 1 MiB if it has none, comes back, or the connection is closed or nothing was sent; over a reliable transport the message in front is taken, or refused as too long |
| `Framing.FramedLeavesNothing` | kmipcore/src/response_parser.cpp:94-110 | a framed message that decodes at all decodes to its last byte, so the trailing-bytes check never fires |
| `Framing.EncodingIsFramed` | kmipcore/src/kmip_basics.cpp:75-167 | every encoding of a structure is one framed message |
| `Locate.FirstIdsAre` | kmipclient/src/KmipClient.cpp:709-726 | the ids kept are distinct, all returned by the server, at most max_ids, and all that was returned if fewer |
| `Locate.MergeNewIds` | kmipclient/src/KmipClient.cpp:709-726 | keeps the ids equal to the first max_ids distinct ids of everything returned so far, and `seen` equal to their set |
| `Locate.LocatePage` | kmipclient/src/KmipClient.cpp:997-1042 | one request with the next reply; none for a page of zero ids; an error for values beyond an int32 |
| `Locate.ResponseSizeLimit` | kmipclient/src/KmipClient.cpp:670-689 | the page's allowance clamped between the default and the hard limit, for every page size without overflow |
| `Locate.Decided` | kmipclient/src/KmipClient.cpp:775-820 | paging goes on only after a page that was all new, and confirms only for a total reached or a short first page |
| `Locate.Judged` | kmipclient/src/KmipClient.cpp:776-820 | after a page with ids, the cursor stands at the end of all pages, or paging ends for a reason in the replies |
| `Locate.AtEnd` | kmipclient/src/KmipClient.cpp:771-776 | an empty page ends the search, or stalls it when a usable total says ids are missing |
| `Locate.TotalBranchIsDead` | kmipclient/src/KmipClient.cpp:786-809 | if a page without repeats moves the offset to the known total, the search has already finished, confirmed |
| `Locate.ConfirmedExactly` | kmipclient/src/KmipClient.cpp:775-820 | with ids on the last page, paging can tell that the list is whole exactly if the total told last is reached or the first page is short, holds no id twice and no total was told |
| `Locate.NextPage` | kmipclient/src/KmipClient.cpp:755-820 | an iteration sends one request and keeps the cursor, or ends with a verdict that the server's replies justify; it throws only the code of the reply just received |
| `Locate.Paging` | kmipclient/src/KmipClient.cpp:755-825 | at most 256 requests, each starting where the pages before it end, with no position skipped or repeated, up to the first page that ends it: an empty or short one, a repeat, the total or max_ids; it stalls exactly if it cannot tell, and confirms exactly if a total is reached or the one page is short and whole; throws only for a failed last reply; on a fixed list, finishing means completeness, and a stall leaves a prefix of the list |
| `Locate.FirstFallbackPage` | kmipclient/src/KmipClient.cpp:851-855 | at least 512 and twice the ids known, within max_ids, with no overflow for any max_ids |
| `Locate.NextFallbackPage` | kmipclient/src/KmipClient.cpp:856-856 | twice the page, within max_ids, with no overflow |
| `Locate.FallbackBound` | kmipclient/src/KmipClient.cpp:851-856 | n fallback requests, n at least 2, need max_ids over 512 * 2^(n-2) |
| `Locate.ReturnedBound` | kmipclient/src/IOUtils.cpp:100-107 | no page received holds more than 2^21 ids, so a run of n requests returns at most n * 2^21 |
| `Locate.OffsetInRange` | kmipcore/src/kmip_requests.cpp:851-856 | against any server, the paging loop never needs an offset beyond an int32 |
| `Locate.FallbackRequests` | kmipclient/src/KmipClient.cpp:851-914 | at most 14 fallback requests against any server and for any max_ids, because every one but the last was answered by a full page |
| `Locate.Counted` | kmipclient/src/KmipClient.cpp:868-873 | the count of known ids in a page reaches their number exactly when the page holds them all |
| `Locate.MergedPage` | kmipclient/src/KmipClient.cpp:866-906 | below max_ids, either a known id is missing from the page or the ids are exactly those of this one page |
| `Locate.Settled` | kmipclient/src/KmipClient.cpp:880-914 | every end of the fallback is justified: max_ids reached, a confirmed list, or an error that names what the server did |
| `Locate.SettledOnList` | kmipclient/src/KmipClient.cpp:880-914 | on a fixed list no fallback page leads to an error, and a return is complete |
| `Locate.SettledForList` | kmipclient/src/KmipClient.cpp:856-914 | on a fixed list a fallback page returns the wanted ids or goes on to the next size, never with an error |
| `Locate.Fallback` | kmipclient/src/KmipClient.cpp:827-915 | never a partial list: max_ids ids, a list confirmed for exactly one of two reasons, or an error that names what the server did; pages start at 512 or twice the known ids and double up to max_ids, all full but the last; a request error is that of the last reply, and no page size is ever beyond an int32; on a fixed list and no failed reply, exactly the wanted ids |
| `Locate.LocateAll` | kmipclient/src/KmipClient.cpp:736-915 | for every server: the first max_ids distinct ids returned, at most 256 + 14 requests, paging up to the first page that ends it, a fallback if and only if paging stalls, a confirmation if and only if the replies tell that the list is whole, an unconfirmed short list only after a short last page with no total reported, every error that of the last reply or one the replies explain, and never that a value is beyond an int32; for every fixed list with offsets always honoured or always ignored and no failed reply: exactly its first max_ids ids, for every max_ids |
| `Locate.ConfirmedIsWhole` | kmipclient/include/kmipclient/KmipClient.hpp:424-433 | if pages come from a set, usable totals count it and short pages at offset 0 hold it, a confirmed result is exactly the set |
| `Probing.ProbeAll` | kmipclient/src/KmipClient.cpp:926-971 | passes of 256, 64 and 16 ids a page, at most 768 requests; each pass goes on to the first window that ends it; ids are only added, up to max_ids; throws only the code of the last reply; nothing changes on a fixed list already complete |
| `Probing.ProbePass` | kmipclient/src/KmipClient.cpp:932-965 | a pass asks for consecutive windows of one size from offset 0, and stops at 256 windows, at max_ids, or at the first window that is empty, that a total of its own page says is the last, or that brings no new id and is short or has the ids of the window before; throws only the code of the last reply |
| `Probing.EndsExactly` | kmipclient/src/KmipClient.cpp:945-963 | what the pass looks at, a page, the page before and whether an id was new to it, tells exactly whether the window ends it in terms of everything the server returned |
| `Probing.PassCovers` | kmipclient/src/KmipClient.cpp:932-965 | the pass of 256 ids a page returns every id of a list of at most 65536, or reaches max_ids |
| `Probing.ProbesCover` | kmipclient/src/KmipClient.cpp:926-971 | and the passes after it lose none of them |
| `Probing.OpAll` | kmipclient/src/KmipClient.cpp:1050-1067 | the first max_ids distinct ids returned by search and probing; probing if and only if max_ids is not reached and the list not confirmed; at most 256 + 14 + 768 requests; every error that of the last reply or one the replies explain; if from the first probe on the replies come from one list of at most 65536 ids, offsets honoured, all of them or max_ids are returned, whatever came before; on a fixed list and no failed reply exactly its first max_ids ids, for every max_ids |
| `LocateReply.ReadPage` | kmipcore/src/kmip_payloads.cpp:122-138 | the loop over a Locate payload gives its ids in order and its last Located Items, or the first error |
| `LocateReply.PageExactly` | kmipcore/src/kmip_payloads.cpp:122-138 | a Locate payload is read exactly if its Unique Identifiers are texts and its Located Items integers; the page has all of the former, in order, and the last of the latter |
| `LocateReply.PageRoundTrip` | kmipcore/src/kmip_payloads.cpp:104-138 | a page is read back as it was written |
| `LocateReply.PageTakesBytes` | kmipcore/src/kmip_payloads.cpp:114-133 | the ids read from a message take at least 8 bytes of it each, besides its header, wherever their item stands |
| `LocateReply.PageDelivered` | kmipclient/src/KmipClient.cpp:1029-1047 | a page printed in a response is the reply read from its bytes, whether or not the response echoes the id |
| `LocateReply.FetchPage` | kmipclient/src/KmipClient.cpp:997-1047 | over any transport and against any bytes, one Locate yields a failure or the page of one message of the stream, with no more ids than its response limit has room for at 8 bytes each |
| `Pool.Init` | kmipclient/src/KmipClientPool.cpp:69-76 | a pool of zero connections is refused; any other starts with every invariant |
| `Pool.MutexKept` | kmipclient/src/KmipClientPool.cpp:103-187 | the thread in a critical section is the one that holds the mutex, and a granted borrow has a permit until it takes it |
| `Pool.ConservedKept` | kmipclient/src/KmipClientPool.cpp:103-148 | the total is idle plus borrowed plus connecting, at most the maximum, and the borrows not returned yet are exactly the slots borrowed |
| `Pool.WakeupKept` | kmipclient/src/KmipClientPool.cpp:103-187 | no event loses a wakeup |
| `Pool.OwnerKept` | kmipclient/src/KmipClientPool.cpp:21-55 | every slot not destroyed has exactly one owner: a place in the idle list, a guard or a returning thread |
| `Pool.Forward` | kmipclient/src/KmipClientPool.cpp:21-55 | an event passes a slot on to one heir or destroys it |
| `Pool.Backward` | kmipclient/src/KmipClientPool.cpp:21-55 | an owner after an event inherited its slot from the owner before it, unless it just connected |
| `Pool.RefinesSemaphore` | kmipclient/src/KmipClientPool.cpp:103-187 | each event takes one free permit, gives one back or leaves the permits alone, between 0 and the maximum |
| `Pool.GoesToSleep` | kmipclient/src/KmipClientPool.cpp:154-173 | whichever thread goes to sleep, and however many already do, no permit is free before or after, and it waits without a deadline or with one not passed yet |
| `Pool.GivesUp` | kmipclient/src/KmipClientPool.cpp:154-187 | a borrow returns without a connection only under the mutex, with no permit free, and only as a try or after its deadline |
| `Pool.KindKept` | kmipclient/src/KmipClientPool.cpp:154-187 | whatever the other threads do, a borrow stays blocking, timed or a try, but for the deadline of a timed one that sleeps |
| `Pool.Deadline` | kmipclient/src/KmipClientPool.cpp:162-178 | in every run, from its deadline on a timed borrow does not sleep again |
| `Pool.TimesOut` | kmipclient/src/KmipClientPool.cpp:166-187 | a try, or a timed borrow past its deadline, returns without a connection exactly if none is idle and none may be made |
| `Pool.GrantedIfFree` | kmipclient/src/KmipClientPool.cpp:154-187 | a borrow that looks while a permit is free is granted one |
| `Pool.EveryRun` | kmipclient/src/KmipClientPool.cpp:68-187 | every run of any number of threads keeps mutual exclusion, conservation, unique ownership and wakeups |
| `Pool.NoLostWakeups` | kmipclient/src/KmipClientPool.cpp:103-187 | in every run, whenever the mutex is free, no thread sleeps or the notified threads that have not looked again are at least the free permits |
| `Pool.SomeoneIsComing` | kmipclient/src/KmipClientPool.cpp:154-187 | if a thread sleeps beside a free permit, some notified thread gets a permit once it has the mutex |
| `Pool.ReturnIsSafe` | kmipclient/src/KmipClientPool.cpp:103-123 | in every run, the slot pushed back fits the reserved capacity and the count lowered is positive |
| `PoolHealth.IdleExactlyIfFit` | kmipclient/src/KmipClientPool.cpp:36-121 | in every run, no idle slot was marked unhealthy or disconnected when its last guard let go of it, every destroyed one was, and a slot in nobody's hands is idle or destroyed accordingly |
| `PoolHealth.PutBackExactlyIfFit` | kmipclient/src/KmipClientPool.cpp:103-121 | whatever happens meanwhile, a returned slot becomes the last idle one exactly if its guard was not marked unhealthy and was connected, and is destroyed and no longer counted otherwise |
| `PoolHealth.ReleasedSlot` | kmipclient/src/KmipClientPool.cpp:36-55 | destroying a guard, or assigning over it, does this to its slot |
| `PoolObjects.KmipClientPool.AcquireLocked` | kmipclient/src/KmipClientPool.cpp:123-148 | the idle slot returned last, or a new one, becomes lent and the other idle slots stay; a failed connect leaves the pool as it was |
| `PoolObjects.KmipClientPool.ReturnSlot` | kmipclient/src/KmipClientPool.cpp:103-121 | a lent slot goes to the idle list if healthy and connected, else its connection is no longer counted |
| `PoolObjects.BorrowedClient.Move` | kmipclient/src/KmipClientPool.cpp:27-34 | the new guard owns what the other owned, and the other nothing |
| `PoolObjects.BorrowedClient.MarkUnhealthy` | kmipclient/include/kmipclient/KmipClientPool.hpp:136 | the guard is unhealthy from then on |
| `PoolObjects.BorrowedClient.MoveAssign` | kmipclient/src/KmipClientPool.cpp:36-49 | the old slot is returned once, to the end of the idle list if its guard was healthy and connected and otherwise out of the count, and the other's slot and health are taken over; assigning to itself does nothing |
| `PoolObjects.BorrowedClient.Destroy` | kmipclient/src/KmipClientPool.cpp:51-55 | returns the slot if there is one, to the end of the idle list if the guard is healthy and connected and otherwise out of the count |
| `Encoding.ToBase64` | kmiputil/src/Encoding.cpp:119-143 | every character is the six-bit slice of the bytes at its place, or padding |
| `Encoding.DecodeOne` | kmiputil/src/Encoding.cpp:100-106 | after every character, the bytes written and the low twelve bits of the wrapping 32-bit accumulator are those of the unbounded bit stream of all characters so far |
| `Encoding.ShiftedOut` | kmiputil/src/Encoding.cpp:102-115 | only the low twelve bits decide the bytes shifted out and the bits left over |
| `Encoding.FromBase64` | kmiputil/src/Encoding.cpp:69-117 | succeeds exactly on text that is, without whitespace, the encoding of some bytes, and returns those |
| `Encoding.Base64Injective` | kmiputil/src/Encoding.cpp:119-143 | different bytes have different encodings |
| `Encoding.Base64RoundTrip` | kmiputil/src/Encoding.cpp:69-143 | decoding undoes encoding for all bytes |
| `Encoding.ToHex` | kmiputil/src/Encoding.cpp:59-67 | two lower-case digits for every byte |
| `Encoding.FromHex` | kmiputil/src/Encoding.cpp:43-57 | succeeds exactly on the digits, of either case, of some non-empty bytes, and returns those |
| `Encoding.HexInjective` | kmiputil/src/Encoding.cpp:43-67 | digits of either case belong to one byte string only |
| `Encoding.HexRoundTrip` | kmiputil/src/Encoding.cpp:43-67 | decoding undoes encoding exactly for non-empty bytes |
| `Alphabets.AlphabetPlaces` | kmiputil/src/Encoding.cpp:19-20 | each value has the character at its place in the alphabet of RFC 4648 section 4, and is looked up from that character only; padding is "=" |
| `Alphabets.NoPlace` | kmiputil/src/Encoding.cpp:69-117 | a character is refused exactly if it is not in the alphabet |
| `Alphabets.DigitPlaces` | kmiputil/src/Encoding.cpp:22-33 | each hexadecimal digit, of either case, has its value, and no other character has one; lower case is written |
| `Alphabets.StripsWhitespace` | kmiputil/src/Encoding.cpp:35-39 | spaces, tabs, carriage returns and line feeds are passed over in Base64, and nothing else |
| `Alphabets.Examples` | kmiputil/src/Encoding.cpp:119-143 | the encodings of RFC 4648 section 10 for "foo" and "foob" |
| `KeyText.ReadSymmetricKey` | kmiputil/src/KeyReader.cpp:176-215 | any text yields exactly the AES key it holds: the Base64, whitespace aside, between the first BEGIN line and the first END line after it, lines without their trailing whitespace; and nothing if it holds none |
| `KeyText.HoldsOne` | kmiputil/src/KeyReader.cpp:182-215 | a text holds one key at most |
| `KeyText.WriteSymmetricKey` | kmiputil/src/KeyWriter.cpp:142-167 | writes exactly the AES keys of 128, 192 and 256 bits, as three lines |
| `KeyText.ReadBack` | kmiputil/src/KeyReader.cpp:182-215 | reading undoes writing, with any lines in front but a BEGIN line, any whitespace after each line and anything behind |
| `Alphabets.MarkersSpelled` | kmiputil/src/KeyReader.cpp:170-172 | the BEGIN and END lines of the text form, letter by letter |
| `Printing.EscapedSame` | kmipcore/src/kmip_formatter.cpp:53-79 | a quoted text can be told from what is printed |
| `Printing.HexBytesSame` | kmipcore/src/kmip_formatter.cpp:41-51 | bytes can be told from what is printed |
| `Formatter.FormatElement` | kmipcore/src/kmip_formatter.cpp:480-566 | appends exactly the text of the tree to the stream |
| `Formatter.FormatShown` | kmipcore/src/kmip_formatter.cpp:125-172 | the text of a tree is that of the tree without its sensitive content: under a sensitive tag only the type and the length of strings count, and of a sensitive structure nothing |
| `Formatter.FormatSame` | kmipcore/src/kmip_formatter.cpp:480-566 | from the text, indents and all, the tree can be told up to sensitive content and extended dates |
| `Formatter.SameText` | kmipcore/src/kmip_formatter.cpp:480-572 | two trees have the same text if and only if they agree on everything but sensitive content and extended dates |
| `TtlvLog.FormatTtlv` | kmipcore/src/kmip_formatter.cpp:582-604 | the text of the tree the bytes decode to, with the number of bytes left behind, or none if they do not decode |
| `TtlvLog.SameLog` | kmipcore/src/kmip_formatter.cpp:582-604 | two messages have the same text if and only if their trees agree but for sensitive content and extended dates, and as many bytes follow them |
| `Redaction.AlikeExactly` | kmipcore/src/kmip_formatter.cpp:125-172 | trees are shown as the same exactly if they agree on everything but values under the ten hidden tags, of which type and length count, and extended dates |
| `Redaction.SameTextExactly` | kmipcore/src/kmip_formatter.cpp:480-572 | so two trees have the same text exactly then |
| `Redaction.SameLogExactly` | kmipcore/src/kmip_formatter.cpp:582-604 | and two messages if, besides, as many bytes follow them |
| `Redaction.SecretsAreNotTold` | kmipcore/src/kmip_formatter.cpp:125-148 | trees that differ only below a Key Value or a Credential Value, in contents, lengths or structure, have the same text |
| `Redaction.KeysAreNotTold` | kmipcore/src/kmip_formatter.cpp:480-566 | a key block that Register writes reads the same in the log whatever the key |
| `Redaction.CredentialsAreNotTold` | kmipcore/src/kmip_formatter.cpp:480-566 | a request with credentials reads the same in the log whatever the user name and the password |
| `Keys.AlgorithmAndLength` | kmipcore/src/kmip_requests.cpp:197-255 | algorithm and length are both sent or neither: neither exactly when the algorithm is unset or beyond what the version defines (0x19 at first, 0x1A, 0x1B and 0x28 from 1.2, 1.3 and 1.4, any from 2.0), or the length is missing or not positive; the length is the one set, or for a symmetric key eight bits for each of its bytes |
| `Keys.CollectAttributes` | kmipcore/src/kmip_requests.cpp:733-780 | under every name (KMIP 1.x) or tag (2.0) stand exactly its typed value, if there is one, and then the generic texts of that name; the pair stands alone under its labels exactly when the version is 2.0 or no generic attribute is named like it |
| `Keys.NamedTwice` | kmipcore/src/kmip_requests.cpp:757-776 | a generic "Cryptographic Length" goes out as a text after the typed length, if there is one |
| `Alphabets.NamesSpelled` | kmipcore/src/kmip_requests.cpp:733-755 | the attribute names of a KMIP 1.x Register, letter by letter |
| `Keys.HolderRead` | kmipcore/src/key_parser.cpp:32-104 | what the Get parser reads from a key block written by Register |
| `Keys.ParsedExactly` | kmipcore/src/key_parser.cpp:32-104 | a key is read exactly if its block has a format and a Key Value with bytes; algorithm and length are those of the block, or else those of the attributes in the Key Value |
| `Keys.BlockTree` | kmipcore/src/kmip_requests.cpp:169-195 | the key block is, tag by tag, the format, the Key Value with the bytes, and the pair or neither of its halves |
| `Keys.RegisterKeyRequest` | kmipcore/src/kmip_requests.cpp:710-784 | Register accepts exactly symmetric keys with a pair and asymmetric keys; the payload is, tag by tag, the object type, the attributes and the object with its key block, the format its own or PKCS#8, X.509 or Raw by its type; the Get parser reads it, as the same type, bytes, format and pair, exactly for Raw symmetric keys and algorithms up to Ed448; the attributes declare the same pair, and nothing else under its labels, exactly when the version is 2.0 or no generic attribute is named like it |
| `GetKey.RejectedExactly` | kmipcore/src/response_parser.cpp:155-168 | a batch comes back with a code to retry exactly when the server failed the Get, or after a good Get the Get Attributes, for that reason |
| `GetKey.GetExactly` | kmipclient/src/KmipClient.cpp:329-333 | a Get response is read exactly if its item succeeded as a Get with a Unique Identifier, an Object Type and the object of that type |
| `GetKey.BatchExactly` | kmipclient/src/KmipClient.cpp:322-353 | a batch succeeds exactly if its Get does, and its Get Attributes succeeds with a State |
| `GetKey.NoReasonEscapes` | kmipclient/src/KmipClient.cpp:429-453 | for every reply to a format request, failed items with any reason included, the error, if there is one, is a code of the client and never one to retry |
| `GetKey.ParseCodes` | kmipcore/src/key_parser.cpp:174-252 | parsing a Get response fails with codes of the client only, so never with one to retry |
| `GetKey.SameLabel` | kmipcore/src/key_parser.cpp:112-124 | the format looked at before parsing is the label of the parsed key |
| `GetKey.FormatExactly` | kmipclient/src/KmipClient.cpp:429-453 | a format request is broken off by a failed exchange or a key that claims the format and cannot be read; otherwise it brings a key exactly if the reply parses to one in the format asked for, for a public key under PKCS#8 a SubjectPublicKeyInfo only, which becomes X.509 |
| `GetKey.AtHandExactly` | kmipclient/src/KmipClient.cpp:62-127 | the key at hand is taken exactly if it is PKCS#8 for a private key, X.509 for a public one, or a SubjectPublicKeyInfo under PKCS#8 |
| `GetKey.AskFormats` | kmipclient/src/KmipClient.cpp:429-453 | asks for the formats in order; every reply but the last neither brought a key nor failed; the result is what the last reply brought, and empty only when all have been asked for |
| `GetKey.KeyFromGetResponse` | kmipclient/src/KmipClient.cpp:406-458 | returns the key at hand, with no request, exactly if it is in a preferred format or of another type; else asks for PKCS#8 of a private key, for X.509 and then PKCS#8 of a public one; the first reply in the format asked for is taken, the first broken one fails, and once all have been refused or ignored the key at hand is returned as it is |
| `GetKey.ConvertedIsReturned` | kmipclient/src/KmipClient.cpp:440-451 | whenever a reply brings the key in the format asked for, it is the last request and its key is the result |
| `GetKey.NegotiationCodes` | kmipclient/src/KmipClient.cpp:406-458 | negotiation fails with codes of the client only |
| `GetKey.NegotiationFails` | kmipclient/src/KmipClient.cpp:423-458 | and not at all if the key at hand can be read and no format request is broken off, whatever the server refuses |
| `GetKey.KeyIsRead` | kmipclient/src/KmipClient.cpp:406-458 | bytes and label of the key come from one reply, the last or the plain Get's, relabelled from PKCS#8 to X.509 only for a public key that is a SubjectPublicKeyInfo |
| `GetKey.Execute` | kmipclient/src/KmipClient.cpp:309-353 | the result is the batch's own error with nothing asked for after it, or exactly what the negotiation from its Get makes of the replies |
| `GetKey.RetryIsForTheBatch` | kmipclient/src/KmipClient.cpp:346-349 | an error to retry is the batch's own, and no format request was sent |
| `GetKey.OpGetKey` | kmipclient/src/KmipClient.cpp:306-404 | one batch, below KMIP 2.0 the only one; a rejected one is sent again with legacy names, and a rejected one of those, if attributes were selected, without selectors; nothing else is retried; the last batch decides, followed by at most two format requests, never repeated; a code to retry is returned only when no batch is left to try |

## Left out

- NetClientOpenSSL, TLS, sockets and polling: the transport is a script of outcomes.
- The OpenSSL parsers of KeyReader and KeyWriter, which come before the SYMMETRIC KEY text form, and the SubjectPublicKeyInfo test, which is a predicate parameter.
- Formatter: the name tables and the calendar are parameters; telling trees apart takes that tag names are words and that other names and dates are single lines; null elements and the text of an exception are not modelled. The wording of a text is followed as far as it tells trees apart.
- KeyText: only type, bytes, algorithm and length of the key read are followed, not its usage mask.
- Zeroing of secrets, logging, OpenSSL error-queue marks.
- The Attributes bag and its parser: `Keys` takes any attribute parser that reads nothing from no attributes, `GetKey` any that fails with client codes, and any reader that says whether a Get Attributes response has a State.
- Merging of the server's attributes into a fetched key: only type, bytes, format, algorithm and length of the Get response are followed.
- Secrets, Create, Activate, Query and the other operations, which add no new behaviour to the message layer.
- Keys and GetKey trees are built by functions rather than by adding to an element in place; the loop over generic attributes is a method.
- Pool: a guard's two fields change in one step, and the pool's destruction is not modelled.
- Locate: a reply is its ids and its total; what else makes a message too long, such as long ids, is a failed reply of the server.
- Messages: error codes of malformed messages are all the code of a message-only exception.
