# Manchester encoder

A Dafny model of the Manchester line encoder `manchesterCodeGenerator.codeToManchester`
from the `externalTesting` tooling of the MVB stack. The encoder turns a list of
source bits into a list of line symbols, two per bit, one per half bit period:

- bit `0` becomes `(0, 1)`, a low-to-high transition;
- bit `1` becomes `(1, 0)`, a high-to-low transition (the G. E. Thomas polarity,
  the opposite of the IEEE 802.3 convention);
- the pairs are concatenated in input order;
- the first element that is neither `0` nor `1` makes the call return `None`,
  and whatever was already encoded is discarded.

Files:

- `wrappers.dfy`, module `Wrappers`: the `Option` datatype; `None` stands for Python's `None`.
- `manchester.dfy`, module `Manchester`: the specification function `Encode`, and the
  method `CodeToManchester`, which mirrors the source's `for` loop with its appends and
  early `return None` and is proved equal to `Encode`. It also holds the lemmas about
  `Encode`: per-index pair mapping, complementary pairs, all-or-nothing failure,
  compositionality, and a round trip through a pair-wise `Decode`.

The output symbols and input elements are modelled as `int`. `[0, 1, 1, 0]` encodes to
`[0, 1, 1, 0, 1, 0, 0, 1]` (proved by `EncodeExamples`), and a non-bit gives a bare `None`.

## Model

| member | source | states |
|---|---|---|
| `Manchester.Encode` | externalTesting/manchesterCodeGenerator.py:21-36 | the encoding succeeds exactly when every element is 0 or 1, and a successful result is twice as long as the input |
| `Manchester.SymbolPair` | externalTesting/manchesterCodeGenerator.py:27-32 | bit `b` gives the pair `(b, 1 - b)`: 0 gives `(0, 1)`, 1 gives `(1, 0)` |
| `Manchester.CodeToManchester` | externalTesting/manchesterCodeGenerator.py:24-36 | the loop, with its appends and early `return None`, returns exactly `Encode` of its input, the `None` case included |
| `Manchester.EncodeCons` | externalTesting/manchesterCodeGenerator.py:26-34 | one loop step: a leading 0 or 1 puts its pair before the encoding of the rest; a leading non-bit gives `None` |
| `Manchester.EncodeAt` | externalTesting/manchesterCodeGenerator.py:26-32 | for valid input, bit `s[i] == 0` puts 0 at `2i` and 1 at `2i+1`; `s[i] == 1` puts 1 at `2i` and 0 at `2i+1` |
| `Manchester.EncodeSymbols` | externalTesting/manchesterCodeGenerator.py:27-32 | for valid input every output symbol is 0 or 1, and the two symbols of each pair differ, so there is a transition in every bit period |
| `Manchester.EncodeConcat` | externalTesting/manchesterCodeGenerator.py:26-34 | `Encode(a + b)` is `Encode(a) + Encode(b)` when both succeed, and `None` when either fails: order is preserved and output is only appended |
| `Manchester.AllOrNothing` | externalTesting/manchesterCodeGenerator.py:33-34 | a non-bit after a prefix that did encode still makes the whole result `None`; no partial list is returned |
| `Manchester.EncodeEmpty` | externalTesting/manchesterCodeGenerator.py:24-36 | the empty input gives the empty list, not `None` |
| `Manchester.EncodeExamples` | externalTesting/manchesterCodeGenerator.py:26-34 | `[0, 1, 1, 0]` encodes to `[0, 1, 1, 0, 1, 0, 0, 1]`, and `[2]` gives `None` |
| `Manchester.Decode` | externalTesting/manchesterCodeGenerator.py:27-32 | reads pairs back, `(0, 1)` as 0 and `(1, 0)` as 1; a decoded result is a bit sequence half as long as its input |
| `Manchester.DecodeEncode` | externalTesting/manchesterCodeGenerator.py:26-32 | round trip: decoding the encoding of any bit sequence gives back that sequence |
| `Manchester.EncodeDecode` | externalTesting/manchesterCodeGenerator.py:26-32 | the other direction: every symbol sequence that decodes is exactly the encoding of its decoded bits |

## Left out

- `generateRandomSequence` (externalTesting/manchesterCodeGenerator.py:14-19): a loop around `random.randint(0, 1)`, a nondeterministic library source; not modelled.
- `dumpManchesterToFile` (externalTesting/manchesterCodeGenerator.py:38-42): file I/O through the `csv` library to a fixed path; not modelled.
- The constructor `__init__` (externalTesting/manchesterCodeGenerator.py:7-12), which stores a random sequence and its encoding in two fields, and the `__main__` driver (externalTesting/manchesterCodeGenerator.py:46-53), which prints and writes: glue around the pieces above; not modelled.
- Python's dynamic typing: the source compares elements with `==`, so `True`, `False`, `0.0` and `1.0` also pass as bits. The model takes a list of integers, so these cases do not arise.
- Determinism (the same input always gives the same output) needs no lemma: `Encode` is a function and `CodeToManchester` reads no state.
