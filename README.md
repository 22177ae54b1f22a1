# simpledb storage core in Dafny

This project models the two in-memory components of simpledb's storage layer
and proves properties about them:

- **The slotted page** (`page<PageSize>`, `include/page.hpp`). It is a fixed
  block holding a 4-byte header (`free_region_start`, `free_region_end`) and
  a data array `m_data`. An offset table of 16-bit words grows upward from
  `m_data[0]`. Records grow downward from `free_region_end`, and each record
  is a 16-bit length prefix followed by its payload.
  - The model is `SlottedPage.Page`. It is a class with a `header` field and
    an `array<Byte>` for `m_data`, at the size the tests use (`page<128>`).
  - `Valid()` is the layout invariant. `Records()` reads the buffer back as
    the sequence of payloads that `at(i)` returns.
  - `Insert`, `WriteAt` (a write through the view returned by the non-const
    `at`), `Clear` and `Deserialize` change the page in place.
  - The header queries (`size`, `empty`, `contains`, `free_space`, `fits`)
    are functions of the `Header` datatype.
  - Each state change is proved against a value-level function (`PlaceRecord`
    and a single-byte update) whose effect on the records is proved by lemmas.
- **The LRU cache** (`lru<Key, Value>`, `include/lru.hpp`). It holds a list
  of shared pointers, a map from key to weak pointer and a map from key to
  list iterator. The model is `LruCache.Lru`:
  - shared objects become value ids in a `contents` heap;
  - list nodes become node ids, so that an iterator left behind by
    `pop_back` can be told apart from a node still in the list;
  - the copies of shared pointers that the cache's callers keep are the set
    `owners`;
  - a weak pointer can be locked (`Alive`) while its value is in `owners` or
    is held by a node still in the list.

The test suites' scenarios are methods in `PageScenarios` and `LruScenarios`.
Each one's `ensures` states what the corresponding test checks.

Behaviour of the code that the model keeps:
- `m_list` is a `std::list` of `shared_ptr` (include/lru.hpp:18, 60), so a
  value stays lockable while a node holding it is in the list;
- `insert` pushes a new node for a key that is already present and leaves the
  old node in the list (include/lru.hpp:27-29), where it still counts toward
  `m_size`;
- the capacity check compares `m_list.size()` with `m_size`
  (include/lru.hpp:24-25), so the list never grows past the capacity; entries
  of `m_map` and `m_iter_map` are not counted, and only `get` erases them,
  when `lock()` fails (include/lru.hpp:46-50);
- `clear()` sets `free_region_end` to `PageSize` (include/page.hpp:187), not
  to the `data_size` the constructor uses (include/page.hpp:82); see Findings.

## Model

| member | source | states |
|---|---|---|
| Bytes.EncodeU16 | include/page.hpp:154-155 | the two bytes of a length prefix or offset decode back to the word written |
| Bytes.WriteU16 | include/page.hpp:154-159 | a word stored at a position reads back at that position, and no byte outside those two changes |
| SlottedPage.Header.Size | include/page.hpp:178-180 | size() is the number of whole 2-byte entries between the header size and free_region_start |
| SlottedPage.Header.Empty | include/page.hpp:89-91 | empty() holds exactly when contains(0) does not |
| SlottedPage.Header.Contains | include/page.hpp:98-100 | contains(i) holds exactly when entry i lies inside the offset table |
| SlottedPage.Header.FreeSpace | include/page.hpp:194-196 | free_space() is the distance from free_region_start to free_region_end |
| SlottedPage.Header.Fits | include/page.hpp:170-172 | fits(n) holds exactly when n more bytes fit between the two offsets |
| SlottedPage.SizeCountsEntries | include/page.hpp:178-180 | for an even start offset, size() counts the table entries exactly |
| SlottedPage.SizeAfterAppend | include/page.hpp:160 | advancing free_region_start by one entry adds one to size() and keeps it well formed |
| SlottedPage.DecodeHeader | include/page.hpp:217 | the header read from a stream takes free_region_start from its first two bytes and free_region_end from the next two, little-endian |
| SlottedPage.EncodeHeader | include/page.hpp:205 | the header written to a stream takes 4 bytes and reads back as the same header |
| SlottedPage.DecodeEncodeHeader | include/page.hpp:217 | every 4 bytes read into a header are the encoding of that header |
| SlottedPage.TopDecreasing | include/page.hpp:153-161 | records lie below one another: a later record never ends above an earlier one |
| SlottedPage.SlotFrame | include/page.hpp:228-233 | a record reads the same from two buffers that agree on its table entry, prefix and payload |
| SlottedPage.PlaceRecord | include/page.hpp:153-159 | insert's writes keep the length of m_data, store the record's start offset in table entry n and the length of s as the record's prefix |
| SlottedPage.PlaceRecordFrame | include/page.hpp:153-159 | insert's writes change no byte outside table entry n and the new record: the earlier entries, the free gap and every byte at or above free_region_end keep their values |
| SlottedPage.PlaceRecordWrites | include/page.hpp:153-159 | the placed record is table entry n, starts at free_region_end minus the length of s minus 2 and reads back as s |
| SlottedPage.PlaceRecordKeeps | include/page.hpp:153-159 | insert's writes leave every earlier record, its entry, its length and its end unchanged |
| SlottedPage.PlaceRecordKeepsEntry | include/page.hpp:157-159 | insert's writes leave every earlier table entry unchanged |
| SlottedPage.PlaceRecordLaysOut | include/page.hpp:153-161 | after insert's writes, each record (the new one included) ends where the previous one starts |
| SlottedPage.PlaceRecordPacked | include/page.hpp:153-161 | insert's writes keep the record area packed, with one more record whose start is the new free_region_end |
| SlottedPage.PlaceRecordSlot | include/page.hpp:153-159 | after insert's writes, record j is the old record j for j below n, and s for j equal to n |
| SlottedPage.PlaceRecordAppends | include/page.hpp:153-161 | insert's writes append s to the records and leave the earlier ones as they were |
| SlottedPage.WriteOutsideTable | include/page.hpp:123-126 | a byte written past the offset table leaves every table entry unchanged |
| SlottedPage.SlotFrameUpdate | include/page.hpp:123-126 | a byte written outside a record's entry, prefix and payload leaves that record unchanged |
| SlottedPage.PlaceByteKeepsTable | include/page.hpp:123-126 | writing a payload byte leaves every table entry, and where every record ends, unchanged |
| SlottedPage.PlaceByteKeeps | include/page.hpp:123-126 | writing a payload byte of record i leaves every other record, and record i's entry and length, unchanged |
| SlottedPage.PlaceByteLaysOut | include/page.hpp:123-126 | after writing a payload byte, each record still ends where the previous one starts |
| SlottedPage.PlaceBytePacked | include/page.hpp:123-126 | writing a payload byte keeps the record area packed |
| SlottedPage.PlaceByteUpdates | include/page.hpp:123-126 | writing byte b at position k of record i's view turns that record's byte k into b and changes no other record |
| SlottedPage.WriteWellformed | include/page.hpp:123-126 | writing a byte inside record i of a well-formed page keeps it well formed and changes only that byte of record i |
| SlottedPage.InsertWellformed | include/page.hpp:150-161 | an insert that passes the size check keeps the page well formed, adds one to size(), takes 4 bytes more than the length of s of free space and appends s to the records |
| SlottedPage.ClearedInsertOverruns | include/page.hpp:185-188 | after clear(), insert's size check passes exactly for records of up to 120 bytes, each of which would end past the last byte of m_data; longer records get bad_alloc |
| SlottedPage.ClearedHoldsNothing | include/page.hpp:185-188 | after clear(), size() is 0 and contains(i) fails for every i, so at(i) throws out_of_range |
| SlottedPage.Page.Records | include/page.hpp:108-116 | there are size() records, and at(i) returns record i for every i below size() |
| SlottedPage.Page.constructor | include/page.hpp:80-83 | a new page is well formed, holds no records and has data_size - 4 bytes of free space |
| SlottedPage.Page.SizeAndOffsetOf | include/page.hpp:228-233 | the size is the length prefix stored at entry i's offset, the payload starts 2 bytes past that offset, and prefix plus payload lie inside m_data |
| SlottedPage.Page.At | include/page.hpp:108-116 | at(i) fails with out_of_range exactly when i >= size(), and otherwise returns the payload of record i |
| SlottedPage.Page.StoreU16 | include/page.hpp:154-155 | storing a word in m_data is WriteU16 on its contents |
| SlottedPage.Page.StoreRecord | include/page.hpp:153-156 | the length prefix and then the payload's bytes are copied into m_data |
| SlottedPage.Page.StoreEntry | include/page.hpp:153-159 | the record and its offset entry are written as PlaceRecord describes |
| SlottedPage.Page.Insert | include/page.hpp:149-163 | bad_alloc with no change exactly when the size check fails; otherwise returns the old size(), adds one to size(), takes 4 bytes more than the length of s of free space, appends s to the records, leaves m_data exactly as PlaceRecord writes it, and keeps the page well formed |
| SlottedPage.Page.WriteAt | include/page.hpp:123-126 | out_of_range when i >= size(); otherwise the only byte of m_data that changes is the one k bytes past the payload start size_and_offset_of(i) gives, so byte k of record i becomes b, no other record changes and the page stays well formed |
| SlottedPage.Page.Clear | include/page.hpp:185-188 | size() becomes 0, empty() holds and contains(0) fails, but free_region_end becomes the page size and the page is no longer well formed |
| SlottedPage.Page.Reset | include/page.hpp:185-188 | clear() with the constructor's end offset leaves an empty, well-formed page |
| SlottedPage.Page.Serialize | include/page.hpp:204-208 | the stream holds the header's 4 bytes and then all of m_data, PageSize bytes in all |
| SlottedPage.Page.Deserialize | include/page.hpp:216-220 | reading a stream restores exactly the header and data it holds, so writing the page reproduces the stream |
| SlottedPage.TransferPage | tests/test_page.cpp:91-105 | a page written to a stream and read into a new page has the same header, data and records |
| PageScenarios.NewPageScenario | tests/test_page.cpp:7-68 | a new page has size() 0, is empty, does not contain 0, fits 50 bytes, does not fit 200, and at(0) throws out_of_range |
| PageScenarios.ContainsAfterInsertScenario | tests/test_page.cpp:58-62 | after one insert, contains(0) holds and the page is not empty |
| PageScenarios.HelloWorldPage | tests/test_page.cpp:14-17 | inserting "Hello" and then "World" into a new page gives a well-formed page holding exactly those two records |
| PageScenarios.InsertAndReadScenario | tests/test_page.cpp:14-31 | after inserting "Hello" and "World", size() is 2, empty() fails, at(0) and at(1) return them and at(2) is out of range |
| PageScenarios.OversizedInsertScenario | tests/test_page.cpp:34-37 | a 128-byte record throws bad_alloc on a 128-byte page |
| PageScenarios.ModifyViewScenario | tests/test_page.cpp:71-78 | writing 'J' through the view of "Hello" makes at(0) return "Jello" |
| PageScenarios.ClearScenario | tests/test_page.cpp:81-88 | after clear(), size() is 0, empty() holds and contains(0) fails |
| PageScenarios.SerializeScenario | tests/test_page.cpp:91-105 | the deserialized page has size() 2 and returns "Hello" and "World" |
| LruCache.Remove | include/lru.hpp:53-54 | taking a node out of the list shortens the list by one, or leaves it alone when the node is absent |
| LruCache.RemoveAt | include/lru.hpp:53-54 | taking the node at index i out of the list keeps every other node in its order |
| LruCache.MoveToFront | include/lru.hpp:53-54 | splicing a node to the front keeps the length, keeps the nodes distinct and keeps the same nodes |
| LruCache.MoveIndexToFront | include/lru.hpp:53-54 | moving the i-th node to the front keeps the nodes distinct and keeps the same nodes |
| LruCache.PopBackLinked | include/lru.hpp:24-25 | pop_back keeps the list and both maps linked up |
| LruCache.PushFrontLinked | include/lru.hpp:27-29 | pushing a fresh node and pointing both map entries at it keeps them linked up |
| LruCache.SpliceLinked | include/lru.hpp:53-54 | splicing a node of the list to the front keeps the list and maps linked up |
| LruCache.EraseLinked | include/lru.hpp:48-49 | erasing a key from both maps keeps them linked up and keeps their key sets equal |
| LruCache.Lru.Held | include/lru.hpp:60 | a node of the list holds a strong reference to the value; an empty list holds none, and what a node holds is a live shared object |
| LruCache.Lru.Alive | include/lru.hpp:46 | lock() on a weak pointer succeeds for every value a caller still holds, and only ever yields a live shared object |
| LruCache.Lru.constructor | include/lru.hpp:21 | a new cache has the given capacity, an empty list and empty maps |
| LruCache.Lru.ExclusiveLookup | include/lru.hpp:32-56 | with only by-value inserts, get is defined on every key and resolves exactly when the key's node is still in the list |
| LruCache.Lru.Insert | include/lru.hpp:23-30 | a full list loses exactly its back node, the new node goes to the front, both map entries point at it, the list stays within capacity and get(key) now returns the value |
| LruCache.Lru.InsertValue | include/lru.hpp:32-38 | a fresh shared value is made and inserted; get(key) returns it and no one outside the cache holds it |
| LruCache.Lru.Get | include/lru.hpp:40-56 | null with no change for an unknown key; null and the key erased from both maps for an expired value; otherwise the value, with its node spliced to the front and the list length unchanged |
| LruCache.Lru.Acquire | include/lru.hpp:18-19 | a caller keeping a copy of a live shared pointer adds it to the owners and changes nothing in the cache |
| LruCache.Lru.Release | include/lru.hpp:18-19 | a caller dropping its copies removes the value from the owners and changes nothing in the cache |
| LruScenarios.GetString | include/lru.hpp:40-56 | get on a cache filled by value returns the string of a key whose node is in the list and moves that node to the front; otherwise it returns null and erases the key |
| LruScenarios.InsertAndRetrieveScenario | tests/test_lru.cpp:4-28 | insert(1, "one") and then get(1) returns "one" |
| LruScenarios.InsertBeyondCapacityScenario | tests/test_lru.cpp:12-20 | with capacity 2, after inserting keys 1, 2 and 3, get(1) is null and get(2) and get(3) return their strings |
| LruScenarios.RetrieveNonExistentScenario | tests/test_lru.cpp:30-34 | get on an empty cache returns null |
| LruScenarios.UpdateLruOrderScenario | tests/test_lru.cpp:36-45 | a get(1) between the second and third insert makes key 2 the one that is lost |
| LruScenarios.ReinsertScenario | include/lru.hpp:27-29 | inserting key 1 twice leaves two nodes in the list, and get(1) returns the newer value |
| LruScenarios.DanglingIteratorScenario | include/lru.hpp:53-54 | a value still held by the caller after its node was evicted leaves get on its key undefined |
| LruScenarios.ReclaimScenario | include/lru.hpp:46-51 | once the caller drops an evicted value, get on its key returns null and erases the key from both maps |

## Left out

- The generic `insert(T)` overload that formats a value through `std::ostringstream` is not modelled, since it depends on the standard library's formatting. Only the byte-string `insert` is modelled.
- Streams are pure byte sequences. Stream failures and partial reads in `<<` and `>>` are not modelled.
- Host endianness and `reinterpret_cast` aliasing are replaced by a fixed little-endian 16-bit encoding.
- The page is modelled at `PageSize` 128 only. The 32-bit `intra_offset_t` variant for pages over 16384 bytes is not modelled, and neither is the unused `inter_offset_t`.
- The initial contents of `m_data` are whatever the array starts with, which is not modelled. No property depends on them.
- The `size_t` wrap-around of `data.size() + 4` in insert's size check is not modelled, because a byte sequence that long cannot occur.
- SlottedPage.Page.Insert: requires `Valid()`, which a page after `clear()` does not satisfy. On a cleared page an insert of up to 120 bytes passes the size check and writes past `m_data`, which is undefined behaviour in the source; an insert of more than 120 bytes fails the size check and throws `bad_alloc` without writing, which is defined behaviour the method does not cover. `ClearedInsertOverruns` states both outcomes. The source's insert itself only needs a sane header (4 <= start <= end <= data_size, with start - 4 even); a page read by `>>` from bytes that `<<` did not write, whose table or records are not packed, is outside the model.
- SlottedPage.Page.WriteAt: requires `Valid()` and `k` inside the record. The source does not bounds-check a write through the view. On a page after `clear()`, the non-const `at(i)` throws `out_of_range` for every i (include/page.hpp:109-110, 124), which is defined behaviour the method does not cover; `ClearedHoldsNothing` states it.
- SlottedPage.Page.WriteAt: looks record i up again at the time of the write. A view from the non-const `at()` (include/page.hpp:123-126) is a pointer that the source lets a caller keep across `clear()` or `>>`; after `>>` such a view writes at its old byte position, whatever now lies there. Views kept across those calls are not modelled.
- Reference counting is abstracted. `owners` is a set of values held outside the cache, not a count of copies, and memory reclamation is not modelled.
- A null `shared_ptr` passed to insert is not modelled.
- LruCache.Lru.Insert: requires a capacity of at least 1, because `pop_back` on the empty list of a zero-capacity cache is undefined behaviour.
- LruCache.Lru.Get: requires `GetDefined(key)`. Splicing through an iterator whose node was evicted while its value is still held elsewhere is undefined behaviour in the source.
- `insert(std::pair)` and `insert(key, value)` are both modelled by `InsertValue`, since one calls the other with the same arguments.

## Findings

| source | as written | input that shows it | evidently intended | confidence | as-written member | corrected member |
|---|---|---|---|---|---|---|
| include/page.hpp:185-188 | `clear()` sets `free_region_end` to `PageSize`, four bytes past the end of `m_data` | `clear()` then `insert("ab")`: the size check passes, and the record's prefix and payload land at bytes 124..127, past the last byte (123) of `m_data` | `clear()` restores the constructor's `free_region_end = data_size`, leaving an empty, well-formed page | high (not executed) | SlottedPage.Page.Clear, SlottedPage.ClearedInsertOverruns | SlottedPage.Page.Reset |
