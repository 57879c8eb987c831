# Brute-force numeric password cracker, modelled in Dafny

This project models `main.py`. The program recovers a numeric password of a
known length from its hex SHA-256 digest by brute force:

- `get_chunks` cuts the keyspace `[0, 10^length - 1]` into one contiguous
  inclusive range per CPU core.
- `crack_chunk` walks one range in ascending order. It formats each key `i`
  as `str(i).zfill(length)` (`get_combinations`), hashes it, and returns the
  first candidate whose digest equals the target.
- `crack_password` runs one `crack_chunk` per range on a process pool and
  keeps the first truthy result in range order.

The modules follow those components:

| file | module | models |
|---|---|---|
| `optional.dfy` | `Optional` | `T.Optional[str]` as `Option<string>` |
| `digest.dfy` | `Digest` | `get_crypto_hash`, taken as a parameter `hash: string -> string`, and `check_password` |
| `candidates.dfy` | `Candidates` | `get_combinations`, with Python's `str` and `zfill` written out, and `int(s)` as its inverse |
| `partition.dfy` | `Partition` | `get_chunks`, as a method with its generator loop and as the function that specifies it |
| `search.dfy` | `Search` | `crack_chunk`, as a method with its loop and early return, specified by a first-match function |
| `coordinator.dfy` | `Coordinator` | `crack_password`: the in-order map over the chunks, the first-truthy reduction, and the end-to-end theorems |

The main result is `Coordinator.CrackIsKeyspaceSearch`. For every worker
count `n >= 1`, the parallel search gives the same answer as one ascending
search of the whole keyspace. `Coordinator.KeyspaceSearchIsSmallestMatch`
says what that answer is: `None` exactly when no key matches, otherwise the
matching password with the smallest value. The proof uses three facts:

- the chunks are contiguous and cover the keyspace (`Partition.ChunksContiguous`);
- a search over two adjacent ranges equals the search over their union (`Search.ChunkSearchSplit`);
- a candidate is never the empty string, so "truthy" and "not None" mean the same thing (`Search.ChunkSearchNonEmpty`).

## Model

| member | source | states |
|---|---|---|
| `Digest.CheckPassword` | main.py:10-12 | `check_password` holds exactly when the candidate's digest equals the expected digest. This is a definition; the two lemmas below state its properties. |
| `Digest.OwnDigestMatches` | main.py:10-12 | A password always matches its own digest, because the hash is deterministic. |
| `Digest.OnlyPreimageMatches` | main.py:7-12 | If the hash has no collisions, the digest of `p` is matched by `p` and by no other string. |
| `Candidates.Pow10` | main.py:21 | `10**length` is at least 1, and at least 10 when `length >= 1`. |
| `Candidates.Candidate` | main.py:16 | `str(i).zfill(length)` is never empty and never shorter than `length`. |
| `Candidates.NatStr` | main.py:16 | `str(n)` for `n >= 0` is a non-empty string of decimal digits. |
| `Candidates.StrRoundTrip` | main.py:16 | `str(i)` holds the decimal digits of `i` when `i >= 0`, and a minus sign followed by the digits of `-i` when `i < 0`. |
| `Candidates.ZFillSpec` | main.py:16 | `s.zfill(width)` has length `max(len(s), width)`. It keeps a leading sign first, then has only `'0'` characters as padding, then the rest of `s` unchanged. |
| `Candidates.NatStrLength` | main.py:16 | `str(n)` has at most `k` digits exactly when `n < 10^k`. |
| `Candidates.NatStrRoundTrip` | main.py:16 | Parsing `str(n)` gives back `n`. |
| `Candidates.CandidateRoundTrip` | main.py:16 | For `i >= 0`, the padded candidate is all decimal digits and parses back to `i`. |
| `Candidates.CandidateLength` | main.py:16 | For `length >= 1` and `i >= 0`, the candidate has exactly `length` characters iff `i < 10^length`. |
| `Candidates.CandidateInjective` | main.py:14-16 | Two different keys `i, j >= 0` never give the same candidate. |
| `Candidates.CandidateOnto` | main.py:14-16 | Every string of `length` decimal digits is the candidate of its own value, and that value is in the keyspace. |
| `Candidates.KeyspaceBijection` | main.py:14-16 | Zero-padded formatting is a bijection from `[0, 10^length - 1]` onto the strings of `length` digits, and parsing is its inverse. |
| `Candidates.Enumerate` | main.py:15-16 | The generator's loop over `range(lo, hi + 1)` yields `hi - lo + 1` strings (none when `hi < lo`), and string `k` is the formatter applied to `lo + k`. |
| `Candidates.Combinations` | main.py:14-16 | `get_combinations(length, lo, hi)` yields `hi - lo + 1` strings (none when `hi < lo`), and string `k` is the candidate of `lo + k`. |
| `Candidates.CombinationsAscending` | main.py:14-16 | From `lo >= 0`, the strings are all digits, string `k` has value `lo + k`, values strictly increase, and no string repeats. |
| `Candidates.CombinationsInKeyspace` | main.py:14-16 | When `0 <= lo` and `hi <= 10^length - 1`, every string has exactly `length` decimal digits. |
| `Candidates.EnumerateSplit` | main.py:15 | Looping over `[lo, hi]` yields what looping over `[lo, mid]` and then `[mid + 1, hi]` yields. |
| `Candidates.CombinationsSplit` | main.py:15 | Enumerating `[lo, hi]` is enumerating `[lo, mid]` and then `[mid + 1, hi]`. |
| `Partition.FloorDivSpec` | main.py:22 | `a // b` is Python's floor division. The remainder `a - b * (a // b)` has the sign of `b` and is smaller than `b` in magnitude. |
| `Partition.MaxNumber` | main.py:21 | `max_number` is `10^length - 1`. This is a definition; `Partition.ChunksContiguous` and `Partition.ChunksPartitionKeyspace` state what the ranges do with it. |
| `Partition.ChunkSize` | main.py:22 | `chunk_size` is `(max_number + 1) // num_chunks`. This is a definition; `Partition.ChunkSizeDivides` states its properties. |
| `Partition.ChunkAt` | main.py:24-27 | Range `i` is `(i * chunk_size, (i + 1) * chunk_size - 1)`, and the last range ends at `max_number`. This is a definition; `Partition.ChunksContiguous` and `Partition.LastChunkAbsorbsRemainder` state its properties. |
| `Partition.Chunks` | main.py:20-27 | For a count `n`, `get_chunks` yields `n` ranges, or none when `n` is negative. |
| `Partition.GetChunks` | main.py:20-27 | The generator loop yields exactly the ranges of `Chunks`. For `n >= 1` they start at 0, end at `10^length - 1`, are contiguous, and none has negative size. |
| `Partition.ChunksContiguous` | main.py:20-27 | For `n >= 1`: there are `n` ranges; range `i` starts at `i * chunk_size`; the first starts at 0; the last ends at `max_number`; each range ends one before the next starts; no range has negative size. |
| `Partition.ChunkSizeDivides` | main.py:22 | `chunk_size` is the non-negative floor quotient, so `10^length == n * chunk_size + 10^length % n`. It is 0 when `n > 10^length`. |
| `Partition.LastChunkAbsorbsRemainder` | main.py:22-26 | Every range but the last holds `chunk_size` keys. The last holds `chunk_size` plus the remainder, so it is never empty. |
| `Partition.ChunksPartitionKeyspace` | main.py:20-27 | A key is in `[0, max_number]` iff some range holds it. No key is in two ranges. The range sizes sum to `10^length`. This holds for every `n >= 1`. |
| `Partition.MoreChunksThanKeys` | main.py:22-26 | When `n > 10^length`, `chunk_size` is 0, the first `n - 1` ranges are the empty `(0, -1)`, and the last is the whole keyspace. |
| `Search.FirstMatchSpec` | main.py:31-34 | The scan returns `None` exactly when no candidate matches. Otherwise it returns a matching candidate with no match before it. |
| `Search.CrackChunk` | main.py:29-34 | `crack_chunk` returns the candidate of the smallest matching key of `[chunk_start, chunk_end]`, or `None` exactly when no key of the range matches. |
| `Search.ChunkSearchNoneIff` | main.py:29-34 | A chunk's search is `None` exactly when no key of the range matches. |
| `Search.ChunkSearchAtFirstKey` | main.py:29-34 | When key `i` is the first matching key of the range, the search returns `i`'s candidate. |
| `Search.ChunkSearchFromFirstKey` | main.py:29-34 | Any answer of a chunk's search is the candidate of the first matching key of the range. |
| `Search.ChunkSearchIsFirstKey` | main.py:29-34 | The full key-level characterisation of `crack_chunk` (the three lemmas above together). |
| `Search.ChunkSearchSplit` | main.py:29-34 | Searching `[lo, hi]` gives the answer for `[lo, mid]` if that range has one, and otherwise the answer for `[mid + 1, hi]`. |
| `Search.ChunkSearchNonEmpty` | main.py:31-33 | A chunk's search never returns the empty string, so every `Some` result is truthy. |
| `Coordinator.FirstTruthy` | main.py:50 | The reduction's result is `None` or a truthy result. |
| `Coordinator.FirstTruthySpec` | main.py:50 | The reduction returns `None` exactly when no result is truthy. Otherwise it returns the first truthy result in chunk order. |
| `Coordinator.ChunkResults` | main.py:44-48 | `starmap` gives one result per chunk, in chunk order. Result `j` is `crack_chunk` on chunk `j`. |
| `Coordinator.CrackPassword` | main.py:36-50 | Searching each chunk in order and keeping the first truthy result gives the answer of one search of the whole keyspace. |
| `Coordinator.ReduceContiguous` | main.py:43-50 | Over contiguous ranges, the first truthy chunk result equals one search from the first start to the last end. |
| `Coordinator.CrackIsKeyspaceSearch` | main.py:38-50 | For every worker count `n >= 1`, the coordinator's answer is the first match of an ascending search of the keyspace. |
| `Coordinator.WorkerCountIrrelevant` | main.py:38-50 | Any two worker counts `>= 1` give the same answer. |
| `Coordinator.KeyspaceSearchIsSmallestMatch` | main.py:20-50 | The answer is `None` exactly when no key matches. Otherwise it is a matching string of `length` digits, and no smaller key matches. |
| `Coordinator.FoundWhenPresent` | main.py:36-50 | If no two strings of `length` digits share a digest, the digest of any keyspace password is cracked to that password. |
| `Coordinator.NotFoundIffNoPreimage` | main.py:36-50 | For `length >= 1`, the search finds nothing exactly when no string of `length` digits has the target digest. So the digest of a longer password is not found unless it collides with a keyspace string. |
| `Coordinator.CrackExample` | main.py:36-50 | If no two 8-digit strings share a digest, then with 4 workers over 8 digits the digest of `"00000042"` is cracked to `"00000042"`. |
| `Coordinator.CrackEntryPointRun` | main.py:60-64 | The entry point's password is cracked: if no two 8-digit strings share a digest, the digest of `"11221974"` over 8 digits is cracked to `"11221974"` for any number of cores. |

## Left out

- SHA-256 (`hashlib.sha256(...).hexdigest()`, main.py:8) is not modelled. Every operation takes the hash as a parameter `hash: string -> string`, which is deterministic. A hex digest has a fixed width, so it has collisions among all strings. The lemmas that need distinct digests (`Coordinator.FoundWhenPresent`, `Coordinator.CrackExample`, `Coordinator.CrackEntryPointRun`) ask only for no collisions among the strings of `length` digits (`Coordinator.KeyspaceCollisionFree`). Only `Digest.OnlyPreimageMatches` assumes a hash with no collisions at all.
- `multiprocessing.Pool` and `starmap` (main.py:43-48) run the chunk searches in parallel. The model runs them one after another, in chunk order. The only pool behaviour the source relies on is that results come back in input order. Process start-up and pickling are not modelled. Neither the source nor the model cancels the other chunk searches once one has found the password: every chunk is searched to its end or its own match.
- `os.cpu_count() or 4` (main.py:38) is a platform query. The worker count is a parameter `numCores >= 1`.
- `print` output and the `time.perf_counter` timing (main.py:30, 37, 39, 41, 52-58) are not modelled. `crack_password` returns nothing in the source. It prints the reduced result. `Coordinator.CrackPassword` returns that result instead.
- The `__main__` block (main.py:60-64) is covered only by `Coordinator.CrackEntryPointRun`. Its comment naming `"0420"` does not match the password it hashes, so the comment is not modelled.
- Laziness: the generators of `get_combinations` and `get_chunks` are modelled as finite sequences. `Search.CrackChunk` walks the keys one at a time, as the generator does. `Partition.GetChunks` collects the ranges its loop yields.
- Negative `length`: `10**length` is then a float, and `int(...)` truncates it. Lengths are `nat` here.
- `Partition.GetChunks`: a count of 0 is excluded by `requires numChunks != 0`, because main.py:22 divides by it (`ZeroDivisionError`). A negative count is modelled: `chunk_size` uses Python floor division and the empty `range` yields no ranges. The partition lemmas cover counts `>= 1`.
- `Candidates.CandidateLength`: the exact-length property needs `length >= 1`. For `length == 0` the keyspace is `{0}` and the only candidate is `"0"`, which has one character.
- `Candidates.Str`: CPython 3.11 and later, and patched earlier releases, refuse by default to convert an integer of more than 4300 decimal digits to a string, and raise `ValueError`. For `length >= 4301`, `str(i)` (main.py:16) and the f-string of main.py:30 then raise, so `crack_password` fails. The model has no such limit and returns a search result for every length.
- `Candidates.Candidate`: negative keys are formatted as Python does (`"-5".zfill(3) == "-05"`). The round-trip lemmas only cover keys `>= 0`. These are the only keys `get_chunks` produces.
- `get_combinations` does not check its bounds. It yields nothing when `hi < lo`, and strings longer than `length` above the keyspace. No error is raised for a length of 0 or less.
