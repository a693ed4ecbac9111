# Covert LSRR channel and English letter-frequency scorer, in Dafny

This project models the core of a covert-channel experiment. It has three parts.

The **sender** (`code/sec/sender.py`) hides a text inside the Loose Source
and Record Route (LSRR) option of IPv4 packets:

- The text is padded with NUL characters to a multiple of four.
- Every window of four characters becomes a fake router address "a.b.c.d" whose fields are the character codes.
- The addresses are packed into an LSRR option. The option has type 131, length 3 + 4n and offset 4 (the byte that locates the first address), followed by four bytes per address.
- A UDP payload `is_covert_<id>_<len>_<time>` (or `is_visible_…`) travels in the same packet.
- Longer texts are split into chunks of at most 36 characters (`MAX_CHARS`), one packet per chunk.

The **receiver** (`code/insec/receiver.py`, `decode_ips_to_message`) reads every
field of every recovered address as a number. It drops the zeros, which it
takes for padding, and turns the rest back into characters.

The **frequency scorer** (`code/python-processor/freq_analysis.py`) does three things:

- It counts the 26 letters of a text, ignoring case.
- It orders the alphabet from the most to the least frequent letter. Ties are broken in reverse "ETAOIN" order.
- It scores the text from 0 to 12: a point for each of ETAOIN's first six letters among the text's six most frequent, and a point for each of ETAOIN's last six among its six least frequent.

Modules:

| file | module | contents |
|---|---|---|
| `outcomes.dfy` | `Outcomes` | `Option` and `Result`; a `None`/`Failure` stands for a Python exception |
| `text.dfy` | `Text` | `str(n)`, `int(s)`, `split`, `join`, `''.join`, and the ASCII predicate |
| `sender.dfy` | `Sender` | address encoding, LSRR option, payload, chunking, packet sending |
| `receiver.dfy` | `Receiver` | address decoding |
| `channel.dfy` | `Channel` | the two ends together: round trips, the NUL loss, chunked transfer |
| `sorting.dfy` | `Sorting` | `list.sort(key=…, reverse=True)` and uniqueness of strictly sorted lists |
| `freq_analysis.dfy` | `FreqAnalysis` | letter counts, frequency order, match score |

The loops of the source are methods with loop invariants, each proved equal to a specification function:

- `EncodeMessageToIps`
- `BuildLsrrOption`, proved equal to `LsrrOption`
- `DecodeIpsToMessage`
- `GetLetterCount`
- the steps of `GetFrequencyOrder`
- `EnglishFreqMatchScore`

`SendLargeCovertMessage` models the send loop of `send_large_covert_message`. Its contract ties packet k to chunk k of `SplitIntoChunks`.

The properties of those functions are proved as lemmas.

## Model

| member | source | states |
|---|---|---|
| Text.Split | code/insec/receiver.py:7 | `s.split(sep)` always yields at least one piece, and no piece holds the separator |
| Text.ParseDecimalOfDecimal | code/insec/receiver.py:7 | `int(str(n)) == n` for every non-negative n |
| Text.JoinSplit | code/sec/sender.py:46 | joining the pieces of `s.split(sep)` with `sep` gives `s` back |
| Text.SplitJoin | code/sec/sender.py:30 | splitting `sep.join(parts)` recovers `parts` when no part holds `sep` |
| Text.DottedRoundTrip | code/sec/sender.py:30 | reading a dotted address built by `".".join(map(str, vs))` field by field with `int` gives back `vs` |
| Sender.Utf8Encode | code/sec/sender.py:29 | `s.encode()` has at least one byte per character, exactly one precisely when `s` is ASCII, and then the bytes are the code points |
| Sender.Padded | code/sec/sender.py:24 | the padded text is 4·ceil(n/4) long, keeps the message as a prefix and is NUL after it |
| Sender.EncodeMessageToIps | code/sec/sender.py:18-33 | fails (the unpack raises) exactly when the text has a non-ASCII character; otherwise returns ceil(n/4) dotted quads, the k-th holding the codes of characters 4k..4k+3, with 0 for padding |
| Sender.EncodedAddressValues | code/sec/sender.py:27-31 | every produced address parses back with `int` to its four octets, and `pack("!4B")` accepts it |
| Sender.AddressBytesLayout | code/sec/sender.py:45-46 | the packed address bytes are four per address, byte 4k+j being octet j of address k |
| Sender.LsrrOptionLayout | code/sec/sender.py:43-46 | the option is 3 + 4n bytes: 131, its own length, 4, then octet j of address k at byte 3 + 4k + j |
| Sender.BuildLsrrOption | code/sec/sender.py:43-46 | building succeeds exactly when the length byte 3 + 4n fits in a byte and every address has four fields below 256; otherwise it fails with the matching error, and on success it returns the layout above |
| Sender.EncodedAddressBytes | code/sec/sender.py:41-46 | the bytes packed for an encoded message are the code points of the NUL-padded message |
| Sender.OptionCarriesMessage | code/sec/sender.py:41-46 | for ASCII text of at most 252 characters the option is header + the padded message bytes, in order |
| Sender.Payload | code/sec/sender.py:51 | the payload is longer than the visible text by more than 3, starts with "is_" and ends with the visible text |
| Sender.SplitFourFields | code/sec/sender.py:51 | four separator-free fields each closed by the separator come out of `split` as four pieces, followed by the pieces of the rest |
| Sender.PayloadFields | code/sec/sender.py:51 | splitting the payload on '_' gives "is", "covert"/"visible", the id, the length, then pieces that rejoin to the visible text |
| Sender.SendCovertPacket | code/sec/sender.py:38-51 | the packet is built exactly when the chunk is ASCII and at most 252 characters; a non-ASCII chunk fails before the option is built; the option carries the padded chunk bytes |
| Sender.ChunkOptionFits | code/sec/sender.py:15-16 | a chunk of at most MAX_CHARS = 36 characters needs at most 9 addresses, so its option has at most 39 bytes, within the 40-byte IPv4 option space |
| Sender.SplitIntoChunks | code/sec/sender.py:35-36 | there are ceil(n/36) chunks, each 1..36 characters long, and all but the last exactly 36 |
| Sender.SplitIntoChunksUnfold | code/sec/sender.py:35-36 | the chunks are the first min(36, n) characters followed by the chunks of the rest |
| Sender.SplitIntoChunksPartition | code/sec/sender.py:35-36 | the chunks concatenate to the message; there are ceil(n/36) of them, each 1..36 long and all but the last exactly 36 |
| Sender.AsciiOfChunks | code/sec/sender.py:35-36 | a message whose chunks are all ASCII is ASCII |
| Sender.SendLargeCovertMessage | code/sec/sender.py:56-61 | one packet per chunk, in order; it stops with an error at the first non-ASCII chunk, which exists exactly when the message is not ASCII |
| Receiver.Chr | code/insec/receiver.py:8 | `chr(o)` succeeds exactly for o below 0x110000 outside the surrogates 0xD800..0xDFFF, and then yields the character whose code point is o |
| Receiver.DecodedAppend | code/insec/receiver.py:6-8 | decoding two address lists in turn is decoding their concatenation, an error in either being an error of the whole |
| Receiver.DecodeIpsToMessage | code/insec/receiver.py:4-9 | the loop returns the specification `Decoded`: the characters of the non-zero fields of all addresses, in order, or an error when some field is not a number or not a code point |
| Receiver.NonZeroCharsMeaning | code/insec/receiver.py:8 | one character per non-zero value, in order: character j has the code of the j-th non-zero value; none of them is NUL |
| Receiver.ZeroDropped | code/insec/receiver.py:8 | a zero anywhere among the values changes nothing |
| Receiver.DecodedLength | code/insec/receiver.py:4-9 | the decoded text has one character per non-zero field over all addresses and no NUL; with four fields per address that is at most 4 characters per address |
| Channel.WithoutNulsEffect | code/sec/sender.py:24 | removing NULs leaves a NUL-free text unchanged and strictly shortens any other |
| Channel.AddressDecodes | code/insec/receiver.py:7-8 | address k of an encoded message decodes to characters 4k..4k+3 of the message, less NULs |
| Channel.DecodeEncode | code/sec/sender.py:18-33 | decoding the addresses of any ASCII message gives the message with its NUL characters removed |
| Channel.RoundTrip | code/sec/sender.py:18-33 | a message of code points 1..127 is decoded to itself |
| Channel.NulIsLost | code/sec/sender.py:24 | a message holding a NUL never survives the round trip: the result is strictly shorter |
| Channel.LoneNulDecodesToEmpty | code/sec/sender.py:24 | "\0" is sent as 0.0.0.0 and received as the empty text |
| Channel.TestMessageExample | code/sec/sender.py:27-31 | "test" is sent as the single address 116.101.115.116, which decodes to "test" |
| Channel.ChunkedRoundTrip | code/sec/sender.py:56-61 | for a message of code points 1..127 every chunk round-trips, and decoding the addresses of all packets in order gives the whole message |
| Sorting.SortDescending | code/python-processor/freq_analysis.py:46 | `sort(key, reverse=True)` returns a permutation whose keys never grow, strictly falling when the keys are distinct |
| Sorting.SortDescendingMembers | code/python-processor/freq_analysis.py:52 | sorting keeps exactly the elements it was given |
| Sorting.StrictlyDownUnique | code/python-processor/freq_analysis.py:52 | two lists whose keys fall strictly and that hold the same elements are equal, so a sort by distinct keys has one possible result |
| Sorting.PermutationOfDistinct | code/python-processor/freq_analysis.py:9-10 | two duplicate-free lists with the same elements are permutations of each other |
| FreqAnalysis.LettersFacts | code/python-processor/freq_analysis.py:10 | LETTERS has 26 characters, no repeats, and holds exactly the letters A..Z |
| FreqAnalysis.EtaoinFacts | code/python-processor/freq_analysis.py:9 | ETAOIN has 26 characters, no repeats, holds exactly A..Z, and is a permutation of LETTERS |
| FreqAnalysis.Upper | code/python-processor/freq_analysis.py:19 | upper-casing yields a capital letter exactly for capital and small letters, and moves a..z down by 32 |
| FreqAnalysis.GetLetterCount | code/python-processor/freq_analysis.py:12-22 | the dictionary has exactly the 26 letters as keys, each mapped to the number of characters of the text that upper-case to it |
| FreqAnalysis.LetterCountAppend | code/python-processor/freq_analysis.py:19-21 | counting a concatenation adds the counts of its parts |
| FreqAnalysis.HistogramIgnoresCase | code/python-processor/freq_analysis.py:19 | two texts that agree once upper-cased have the same counts |
| FreqAnalysis.HistogramIgnoresNonLetter | code/python-processor/freq_analysis.py:20 | inserting a character that is not a letter in either case leaves the counts unchanged |
| FreqAnalysis.CountsAddUpToLetters | code/python-processor/freq_analysis.py:19-21 | the 26 counts add up to the number of letters in the text |
| FreqAnalysis.Find | code/python-processor/freq_analysis.py:46 | `s.find(c)` is -1 exactly when c is absent, else the first position of c |
| FreqAnalysis.EtaoinIndexFacts | code/python-processor/freq_analysis.py:46 | every letter has a position 0..25 in ETAOIN, and position k maps back to k |
| FreqAnalysis.RanksDiffer | code/python-processor/freq_analysis.py:45-52 | different letters never tie on the combined key (count, ETAOIN position) |
| FreqAnalysis.FrequencyOrderStrict | code/python-processor/freq_analysis.py:27-60 | the frequency order holds exactly the letters, with the combined key falling strictly |
| FreqAnalysis.FrequencyOrderMeaning | code/python-processor/freq_analysis.py:27-60 | the order lists all 26 letters once, counts never grow along it, and letters of equal count come in reverse ETAOIN order |
| FreqAnalysis.NoLetterOrder | code/python-processor/freq_analysis.py:27-60 | a text without letters is ordered "ZQXJKVBPYGFWMUCLDRHSNIOATE", ETAOIN backwards |
| FreqAnalysis.Group | code/python-processor/freq_analysis.py:36-41 | the group of count f holds exactly the listed letters whose count is f |
| FreqAnalysis.GroupNoDuplicates | code/python-processor/freq_analysis.py:36-41 | a group holds each letter once |
| FreqAnalysis.GroupByCount | code/python-processor/freq_analysis.py:36-41 | the dictionary maps each count to its letters in alphabetical order, and no key has an empty group, so every key is some letter's count; every letter's count is a key; the counts are listed once each, ordered by the first letters of their groups, which is the order in which the alphabetical loop first meets them |
| FreqAnalysis.GroupByCountUnique | code/python-processor/freq_analysis.py:36-41 | two results that meet GroupByCount's contract are the same dictionary and the same list of counts, so the contract fixes step two's result |
| FreqAnalysis.SortedGroupFacts | code/python-processor/freq_analysis.py:45-47 | a sorted group holds exactly the letters of count f, its combined key falling strictly |
| FreqAnalysis.SortGroups | code/python-processor/freq_analysis.py:45-47 | after step three every count's group is in reverse ETAOIN order |
| FreqAnalysis.PairsFacts | code/python-processor/freq_analysis.py:51-52 | the sorted (count, group) pairs each hold a count with its group, counts fall strictly, and every letter's count occurs |
| FreqAnalysis.JoinGroups | code/python-processor/freq_analysis.py:56-60 | the joined string is the groups of the pairs one after another |
| FreqAnalysis.JoinedGroups | code/python-processor/freq_analysis.py:56-60 | joining groups whose counts fall strictly gives letters with strictly falling combined key: exactly those whose count is in a pair |
| FreqAnalysis.JoinedPairsAreFrequencyOrder | code/python-processor/freq_analysis.py:51-60 | joining the sorted pairs gives the frequency order |
| FreqAnalysis.GetFrequencyOrder | code/python-processor/freq_analysis.py:27-60 | the five steps return the frequency order of the text's letter counts |
| FreqAnalysis.CountIn | code/python-processor/freq_analysis.py:73-75 | the number of wanted letters found in the pool is at most the number wanted, and equal to it exactly when all are found |
| FreqAnalysis.CountAmong | code/python-processor/freq_analysis.py:73-80 | each scoring loop adds one point per wanted letter found in the pool |
| FreqAnalysis.MatchScoreRange | code/python-processor/freq_analysis.py:62-81 | the score is at most 12, and exactly 12 when both sixes of ETAOIN are found at the two ends of the order |
| FreqAnalysis.EnglishOrderScoresTwelve | code/python-processor/freq_analysis.py:73-80 | the order ETAOIN itself scores 12 |
| FreqAnalysis.NoLetterOrderScoresZero | code/python-processor/freq_analysis.py:73-80 | the order of a letterless text scores 0 |
| FreqAnalysis.EnglishFreqMatchScore | code/python-processor/freq_analysis.py:62-81 | the method returns the specification `Score`: the match score of the frequency order, at most 12 |
| FreqAnalysis.NoLetterScore | code/python-processor/freq_analysis.py:62-81 | a text without letters scores 0 |
| FreqAnalysis.ScoreIgnoresCaseAndNonLetters | code/python-processor/freq_analysis.py:62-81 | inserting a non-letter does not change the score, and neither does upper-casing the text |

## Left out

- Packet I/O is not modelled: scapy's `IP`, `UDP`, `IPOption` and `send`, and `sniff` on the receiving side. `SendCovertPacket` returns the option bytes and the payload instead of sending them.
- The channel lemmas (`Channel.RoundTrip`, `Channel.ChunkedRoundTrip`) decode the address strings the sender produced. On the wire the receiver decodes the strings scapy renders from the option bytes (`opt.routers`); these are the same dotted decimals, since each address is four bytes below 256 (`Sender.OptionCarriesMessage`), but scapy's rendering is not modelled.
- The clock is not modelled: `datetime.now()` in `send_covert_packet` becomes the parameter `visibleMsg`. `SendLargeCovertMessage` uses one value of it for every chunk, where the source reads the clock once per packet.
- `SendCovertPacket` and `SendLargeCovertMessage` do not take the destination address and port, because those only reach the packet I/O. Their parameters `isCovert`, `msgId` and `msgLen` keep the source's defaults, `true`, 0 and 12 (`code/sec/sender.py:38`, `code/sec/sender.py:56`), and come after the clock value `visibleMsg`.
- `time.sleep(0.1)` between packets and every `print` are not modelled.
- The following are outside the modelled core: the experiment drivers (`run_experiment_phase3`, `run_benchmark`, random message generation, reading `dummy_text.txt`), the statistics (`mean_confidence_interval`, `report_stats`, floating point), the `__main__` argument handling, `extract_lsrr` and the rest of `receiver.py`, `main.py`, and the report and plot scripts.
- `englishLetterFreq` is a table of floating-point percentages that the modelled functions never read, so it is not modelled.
- None of the modelled files keeps a per-message reassembly buffer or runs a detector over received packets: `code/python-processor/main.py:13-27` only relays packets between message-bus topics. The phase-3 report script reads an `is_detected` column produced outside this code. So neither a buffer nor a detector is modelled, and the relay itself (asyncio, the message bus) is not modelled either.
- `code/insec/receiver.py:8` drops zero fields itself, so the NUL padding added by the sender never reaches the caller of `decode_ips_to_message` (`Receiver.ZeroDropped`, `Channel.NulIsLost`).
- No envelope parser exists in the source. The receiving side of the payload format is only characterised by `Sender.PayloadFields`.
- Text.ParseDecimal: models `int(x)` only on strings of ASCII digits. Python's `int` also accepts surrounding whitespace, a sign, underscores between digits and non-ASCII digits. The model reports those as errors. Fields produced by the sender are always plain digits.
- Receiver.Chr: a code point in the surrogate range 0xD800..0xDFFF is reported as an error, because a Dafny `char` cannot hold it. Python's `chr` returns a lone surrogate there.
- FreqAnalysis.Upper: only `a`..`z` are mapped. Python's `str.upper` also maps some non-ASCII characters to ASCII capitals: 'ß' to "SS", 'ı' to 'I', 'ſ' to 'S', and ligatures such as 'ﬀ' to "FF". So FreqAnalysis.GetLetterCount, FreqAnalysis.GetFrequencyOrder and FreqAnalysis.EnglishFreqMatchScore require an ASCII text, where the source takes any text. The functions `Histogram`, `FrequencyOrder` and `Score` are total, but they match Python only on ASCII input.
- The in-place `list.sort` and the dictionary updates of `get_frequeny_order` are modelled on values: `SortDescending` on sequences and map reassignment. The order in which Python visits dictionary keys in step three does not affect the result, since each group is sorted on its own.
- Sorting.SortDescending: stability is not stated as a property. Every sort in the source uses distinct keys (distinct ETAOIN positions, distinct counts), and `Sorting.StrictlyDownUnique` shows the result is then unique.
- `send_covert_packet` encodes its chunk before building the option. A non-ASCII chunk therefore raises in `encode_message_to_ips`, and the model reports `NonAsciiCharacter` for it. A chunk longer than 252 characters fails at the option's length byte, reported as `OptionTooLong`. Chunks produced by `split_into_chunks` never exceed 36 characters.
