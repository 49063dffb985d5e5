# pzip: per-thread letter counting

pzip is meant to run-length-encode a buffer of lower-case letters in parallel.
As written, `pzip` (`src/pzip.c`) does three things:

- It splits the first `n_threads * (size / n_threads)` characters into equal
  consecutive ranges, one per thread.
- It sets up a `threadObj` for each thread and runs `handleZip` on it.
- It prints each thread's 26 letter counts and exits.

`handleZip` works in three steps:

- It zeroes the thread's buckets.
- It scans the thread's range. It increments bucket `c - 'a'` for each
  character `c`. It pushes a letter onto the thread's linked list (`addNode`)
  the first time its bucket is incremented, and counts such letters in a
  local variable.
- It allocates a `zipped_char` buffer with one entry per distinct letter.

The code does no run-length encoding and no merge of the threads' results.
It never fills `local_zipped_chars`. The `uniqueCharCount` field stays 0,
because `handleZip` counts into a local of the same name.

The model has four modules:

- `Partition` (`partition.dfy`) holds the range arithmetic and its
  properties:
  - each range lies inside the input;
  - consecutive ranges meet;
  - distinct ranges are disjoint;
  - every processed index has exactly one owner;
  - the last `size % n_threads` characters are never read;
  - the ranges laid end to end give the processed prefix.
- `ScanSpec` (`scan_spec.dfy`) defines what one scan computes, as functions
  of the characters of the range:
  - `Histogram`: the 26 buckets;
  - `NewestFirst`: the distinct letters, last first-seen letter at the head.

  It also proves what those functions mean:
  - bucket counts;
  - zero bucket if and only if the letter is absent;
  - the sum of the buckets;
  - the list's elements, distinctness and order;
  - the list's length equals the number of nonzero buckets.
- `LinkedLists` (`linked_list.dfy`) models `struct Node` and
  `struct LinkedList` as classes. A ghost node sequence and a ghost content
  sequence describe the chain reached from `head`. `AddNode` is the head
  insertion.
- `Pzip` (`pzip.dfy`) has two parts:
  - `ThreadObj` is a class with the fields of `threadObj`. Its `HandleZip`
    is proved against `Histogram` and `NewestFirst`.
  - The `Pzip` method runs the threads one after another and returns the
    thread objects. Its contract states that, for each letter, the threads'
    buckets summed over the returned objects (`ThreadSum`) equal the number
    of occurrences of that letter in the processed prefix.

The scan loop of `handleZip` is split over three methods, to keep each proof
small:

- `HandleZip` zeroes the buckets, calls `Scan` and allocates the buffer.
- `Scan` is the loop.
- `CountChar` is one iteration of the loop.

Together they perform the same statements in the same order, except that the
local counter is initialised to 0 at the start of `Scan`, after the zeroing
loop. In the code it is initialised before that loop, which does not read it.

## Model

| member | source | states |
|---|---|---|
| Partition.Range | src/pzip.c:55 | `range = size / n_threads`: `n_threads * range <= size < n_threads * range + n_threads` |
| Partition.RangeInside | src/pzip.c:55 | each thread's range `[range*k, range*k + range)` has `range` characters and ends within the processed prefix, which lies within the input |
| Partition.Start | src/pzip.c:113 | first index thread `k` scans, `range * k`; thread 0 starts at index 0 |
| Partition.End | src/pzip.c:114 | one past the last index thread `k` scans, `start + range`: exactly where thread `k+1` starts |
| Partition.Processed | src/pzip.c:55 | length `n_threads * range` of the prefix the threads scan together: 0 with no threads, otherwise where the last thread's range ends |
| Partition.Disjoint | src/pzip.c:113-116 | no index is scanned by two different threads |
| Partition.Owner | src/pzip.c:113-114 | every index of the processed prefix lies in the range of a thread below `n_threads` |
| Partition.Coverage | src/pzip.c:113-116 | an index lies in thread `k`'s range if and only if it is in the processed prefix and `k` is its owner |
| Partition.TailNeverRead | src/pzip.c:55 | the unprocessed tail has `size % n_threads < n_threads` characters and no thread's range contains any of them |
| Partition.Slices | src/pzip.c:69-74 | one part per thread, each of `range` characters |
| Partition.SlicesAt | src/pzip.c:113-116 | part `k` is exactly the characters thread `k` scans |
| Partition.SlicesCoverPrefix | src/pzip.c:55 | the threads' parts, concatenated in thread order, equal the first `n_threads * range` characters |
| ScanSpec.Letter | src/pzip.c:118 | every bucket index names a lower-case letter |
| ScanSpec.Bucket | src/pzip.c:118 | `c - 'a'` is a bucket below 26, its letter is `c`, and it is the only bucket for `c` |
| ScanSpec.Histogram | src/pzip.c:109-123 | the 26 buckets after zeroing and scanning `s`: each letter increments bucket `c - 'a'` |
| ScanSpec.NewestFirst | src/pzip.c:116-121 | the list after scanning `s` from an empty list: the distinct letters, each pushed on the front when first seen |
| ScanSpec.HistogramSnoc | src/pzip.c:122 | scanning one more letter increments its bucket and leaves the other 25 unchanged |
| ScanSpec.HistogramCounts | src/pzip.c:109-123 | after the zeroing and the scan, bucket `b` equals the number of occurrences of letter `b` |
| ScanSpec.HistogramZero | src/pzip.c:118 | a bucket is zero exactly when its letter has not been seen |
| ScanSpec.HistogramEmpty | src/pzip.c:109-111 | before the scan every bucket is zero |
| ScanSpec.HistogramNonNegative | src/pzip.c:122 | no bucket is negative |
| ScanSpec.HistogramSum | src/pzip.c:116-123 | the 26 buckets add up to the number of characters scanned |
| ScanSpec.HistogramBounds | src/pzip.c:116-123 | each bucket lies between 0 and the range length |
| ScanSpec.NewestFirstSnoc | src/pzip.c:118-120 | a new letter is pushed on the front of the list; a letter seen before leaves it unchanged |
| ScanSpec.NewestFirstElements | src/pzip.c:116-121 | the list holds exactly the letters that occur in the range |
| ScanSpec.NewestFirstDistinct | src/pzip.c:118-120 | no letter is listed twice |
| ScanSpec.NewestFirstOrder | src/pzip.c:118-120 | if `x` is listed before `y`, then `y` occurs before every occurrence of `x` (the list is in reverse order of first occurrence) |
| ScanSpec.ScanStep | src/pzip.c:118-120 | one iteration: the letter is pushed on the list exactly when its bucket was still zero |
| ScanSpec.NewestFirstLength | src/pzip.c:106 | the local count of distinct letters equals the number of nonzero buckets and is at most 26 and at most the range length |
| LinkedLists.Node.constructor | src/pzip.c:138-139 | a node holds the given data and next pointer |
| LinkedLists.ChainAt | src/pzip.c:10-18 | in a well-formed list, node `i` holds the `i`-th character and points at node `i+1`; the last node points at null |
| LinkedLists.LinkedList.constructor | src/pzip.c:76-77 | a new list has a null head and no contents |
| LinkedLists.AddNode | src/pzip.c:131-141 | a fresh head holds `data` and points at the old head; the contents gain `data` in front; no existing node changes |
| Pzip.ThreadObj.constructor | src/pzip.c:69-77 | a thread object holds the index, range, size and input it was given; the field `uniqueCharCount` is 0; the list is empty |
| Pzip.ThreadObj.Slice | src/pzip.c:113-114 | the characters a thread scans number `range` |
| Pzip.ThreadObj.HandleZip | src/pzip.c:104-129 | buckets equal `Histogram` of the thread's range whatever they held before; the list gains `NewestFirst` of the range; a fresh buffer has one entry per distinct letter (= nonzero buckets); the field `uniqueCharCount` is unchanged; the input is not written |
| Pzip.ThreadObj.Scan | src/pzip.c:113-123 | from zeroed buckets, the scan leaves `Histogram` of the range in the buckets, pushes `NewestFirst` of the range on the list, and returns its length |
| Pzip.ThreadObj.CountChar | src/pzip.c:117-122 | one iteration keeps the buckets, the list and the local count in step with the characters seen so far |
| Pzip.RunThread | src/pzip.c:69-81 | a fresh thread object for thread `k`, set up and scanned, over exactly its range of the input; its bucket array and list are fresh and differ from those of every thread created before |
| Pzip.Pzip | src/pzip.c:51-102 | one thread object per thread; thread `k` has index `k`, the common range and the shared input; its buckets are the histogram of part `k`; its list holds that part's distinct letters newest first; its buffer has one entry per distinct letter; its `uniqueCharCount` field is 0; every thread object and its 26 buckets are fresh, and no two threads share a bucket array or a list; bucket `b` summed over the returned objects counts letter `b` in the processed prefix; the input is only read |
| Pzip.ScannedSlice | src/pzip.c:113-123 | a scanned thread's buckets are the histogram of its part of the input |
| Pzip.BucketTotalCounts | src/pzip.c:113-123 | bucket `b` summed over the threads counts letter `b` in the threads' parts laid end to end |
| Pzip.ThreadsCountPrefix | src/pzip.c:55 | the histograms of the threads' parts, summed for bucket `b`, equal the occurrences of letter `b` in the processed prefix: no character is counted twice or missed (the code never forms this total in `char_frequency`) |
| Pzip.ThreadSumIsBucketTotal | src/pzip.c:91-96 | bucket `b` summed over thread objects whose buckets are the histograms of the parts equals the parts' bucket total |
| Pzip.ScannedThreadsCount | src/pzip.c:113-123 | for scanned threads 0 .. n-1, thread `k`'s buckets are the histogram of part `k`, and bucket `b` summed over the thread objects counts letter `b` in the processed prefix |

## Left out

- Threads: `pthread_create` and `pthread_join` are not modelled. The threads
  run one after another, because each touches only its own `threadObj` and
  reads the shared input. `pthread_exit` becomes the end of `HandleZip`.
- Allocation failures are not modelled. `malloc`/`perror`/`exit(1)` for the
  thread array, the thread data and the nodes are left out, so allocation
  always succeeds. This includes the unchecked `threadData == NULL` path,
  which calls `perror` and then carries on. The `free` calls and the leaked
  lists and buffers are left out.
- Pzip: does not print the buckets or call `exit(0)`. It returns the thread
  objects instead, because output and process exit are outside the model.
  `printLinkedList` is not modelled either; `ChainAt` states what its
  traversal would visit.
- Pzip: the outputs `zipped_chars`, `zipped_chars_count` and
  `char_frequency` are not parameters, because the code never writes them.
  Run-length encoding and the merge of thread results do not exist in the
  code.
- `pzip.h` is not part of this model. The layout of `struct zipped_char` is
  assumed to be a character and its count (`ZippedChar`). Its entries are
  never written.
- C `int` fields are modelled as `nat`/`int`, so overflow is not modelled.
  The products `range * t_index` stay within the input size, so they cannot
  overflow.
- `Node.data` is a C `int` holding a `char`. It is modelled as `char`,
  which holds the same value.
- `malloc` leaves `frequencies` and `local_zipped_chars` indeterminate.
  Dafny zero-fills the array and the model sets `localZippedChars` to null.
  `HandleZip` does not depend on either.
- Pzip: requires `n_threads >= 1`, because the code divides by it. It
  requires the processed prefix to be lower-case letters, because any other
  character would index `frequencies` out of bounds.
- HandleZip: always allocates a non-null buffer, even one of length 0 when
  the range is empty. In C, `malloc(0)` at src/pzip.c:126 may return NULL.
  Nothing reads the buffer.
