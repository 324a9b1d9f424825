# Vinorm wrapper model

Vinorm normalises Vietnamese text for speech synthesis. The Python package
exposes one function, `TTSnorm(text, punc=False, unknown=True, lower=True,
rule=False)`, in `vinorm/__init__.py`. It writes the text to a file, runs a
bundled engine executable (`main.exe`) with switches chosen from its keyword
arguments, reads the engine's output file back, and returns the sentences it
finds there. The engine separates sentences with `#line#`; the wrapper drops
empty pieces and ends every sentence with `". "`.

This project models the two pieces of logic the wrapper itself contains:

- **Command line** (`vinorm.dfy`, module `Vinorm`). `Options` holds the four
  switches and `Defaults` their default values. `Command(dir, o)` is the
  argument list: the executable `dir + "/main.exe"`, then the names from
  `FlagNames` (`-punc`, `-unknown`, `-lower`, `-rule`) whose option is set.
  The generic `Select` picks them. `BuildCommand` is the source's chain of
  `if … append` statements, proved equal to `Command`.
- **Output reassembly** (`vinorm.dfy`). `Rejoin(output)` is the returned
  text: split on `#line#`, keep the non-empty pieces (`NonEmpty`), and append
  `". "` to each one (`Terminated`). `JoinSentences` is the source's
  accumulation loop, proved equal to `Rejoin`.
- **Python string semantics** (`pystr.dfy`, module `PyStr`). `Split` is
  `str.split` with a non-empty separator: it matches from the left, matches
  never overlap, and there is always at least one piece. `Join` is
  `str.join`. `Contains`, `EndsWith` and `Repeat` are `in`, `str.endswith`
  and repetition.

`TTSnorm` ties the two parts together. It takes the package directory and the
engine's output as parameters; the engine itself is not modelled.

## Model

| member | source | states |
|---|---|---|
| `PyStr.Split` | vinorm/__init__.py:37 | Splitting always yields at least one piece, and the first piece is a prefix of the text |
| `PyStr.JoinSplit` | vinorm/__init__.py:37 | Joining the pieces with the separator gives back the original text, so splitting loses no character |
| `PyStr.SplitPiecesFree` | vinorm/__init__.py:37 | No piece contains the separator |
| `PyStr.SplitNoOccurrence` | vinorm/__init__.py:37 | A text without the separator splits into the single piece `[text]` |
| `PyStr.SplitLeftmost` | vinorm/__init__.py:37 | The first cut is at the leftmost occurrence of the separator, and the rest after it is split the same way (matches never overlap) |
| `PyStr.SplitRepeat` | vinorm/__init__.py:37 | A text of `n` separators splits into `n + 1` empty pieces |
| `PyStr.SplitJoin` | vinorm/__init__.py:37 | Splitting joined pieces gives back exactly those pieces when the last piece holds no separator and every other piece is cut cleanly (no occurrence of the separator starts inside it, counting the separator written after it) |
| `Vinorm.Select` | vinorm/__init__.py:22-30 | Every appended element is one of the switch names |
| `Vinorm.SelectPresence` | vinorm/__init__.py:23-30 | With distinct names, a name is selected exactly when its switch is on |
| `Vinorm.SelectLength` | vinorm/__init__.py:23-30 | The number of selected names equals the number of switches that are on |
| `Vinorm.SelectOrder` | vinorm/__init__.py:23-30 | Selected names keep the relative order of the name list |
| `Vinorm.BuildCommand` | vinorm/__init__.py:21-30 | The list built by the four guarded appends equals `Command(dir, o)` |
| `Vinorm.CommandHead` | vinorm/__init__.py:21-22 | The list is non-empty, starts with `dir + "/main.exe"`, and that element is not a switch |
| `Vinorm.CommandFlags` | vinorm/__init__.py:22-30 | `-punc`, `-unknown`, `-lower` and `-rule` are each in the list exactly when their option is true |
| `Vinorm.CommandLength` | vinorm/__init__.py:22-30 | The list length is 1 plus the number of true options |
| `Vinorm.CommandOrder` | vinorm/__init__.py:23-30 | Every element after the executable is a switch, and any two switches appear in the fixed order -punc, -unknown, -lower, -rule |
| `Vinorm.DefaultCommand` | vinorm/__init__.py:6-30 | With the default arguments the list is exactly `[dir + "/main.exe", "-unknown", "-lower"]` |
| `Vinorm.TestedCombinations` | test_python_only.py:62-71 | For the four option sets the test lists, the switches after the executable are the ones it expects |
| `Vinorm.NonEmpty` | vinorm/__init__.py:38-40 | A string is kept exactly when it is one of the pieces and is not empty |
| `Vinorm.ReassembleSnoc` | vinorm/__init__.py:38-41 | One more loop iteration adds nothing for an empty piece and adds the piece followed by ". " otherwise |
| `Vinorm.JoinSentences` | vinorm/__init__.py:36-41 | The loop returns `Rejoin(output)`; the result never contains `#line#` and, when non-empty, ends with ". " |
| `Vinorm.TerminatedNoDelimiter` | vinorm/__init__.py:41 | Appending ". " to delimiter-free sentences and concatenating them creates no `#line#` across a boundary |
| `Vinorm.RejoinNoDelimiter` | vinorm/__init__.py:37-41 | The returned text never contains `#line#` |
| `Vinorm.TerminatedEnd` | vinorm/__init__.py:41 | The concatenation is empty exactly when there are no sentences, and otherwise ends in ". " |
| `Vinorm.RejoinEndsWithStop` | vinorm/__init__.py:37-41 | Every non-empty result ends with ". ", including after the last sentence |
| `Vinorm.RejoinEmpty` | vinorm/__init__.py:36-41 | The result is empty exactly when the output is `#line#` repeated some number of times, zero included (the empty output) |
| `Vinorm.RejoinSingle` | vinorm/__init__.py:37-41 | A non-empty output without `#line#` comes back as itself followed by ". " |
| `Vinorm.CleanCut` | vinorm/__init__.py:37 | A sentence without `#line#` that does not end in "#line" is cut cleanly by the `#line#` after it: no match starts inside the sentence |
| `Vinorm.RejoinSentences` | vinorm/__init__.py:37-41 | For sentences joined with `#line#`, none holding `#line#` and none but the last ending in "#line", the result holds every non-empty sentence, in order, each followed by ". " |
| `Vinorm.StraddledSplit` | vinorm/__init__.py:37 | "x#line#line#y" splits into ["x", "line#y"]: the leftmost match starts inside the first sentence |
| `Vinorm.StraddledSentences` | vinorm/__init__.py:37-41 | The sentences ["x#line", "y"] join to "x#line#line#y", which comes back as "x. line#y. " rather than "x#line. y. " |
| `Vinorm.TTSnorm` | vinorm/__init__.py:6-44 | The engine is run with `Command(dir, o)`, and the returned text is `Rejoin(output)` for the text read from output.txt |

## Left out

- Writing the input text to `input.txt` and reading `output.txt` (vinorm/__init__.py:14-16, 33-35) are file I/O. `TTSnorm` takes as a parameter the text that `fr.read()` returns: the file decoded from UTF-8 in text mode, with `\r\n` and `\r` already turned into `\n`. Neither the decoding nor the newline translation is modelled. `TTSnorm` does not take the input text, because the wrapper only writes that text to disk.
- Running the engine with `subprocess.check_call` is left out, and so is its failure on a non-zero exit. The copied environment with `LD_LIBRARY_PATH = dir + "/lib"` (vinorm/__init__.py:18-19, 31) is left out too. Both are process and environment plumbing; only the argument list is modelled.
- Finding the package directory with `importlib.util.find_spec`, and the `ImportError` raised when that fails (vinorm/__init__.py:8-11), are left out. This depends on Python's import system, so the directory is a parameter.
- The normalisation engine (numbers, dates, abbreviations, sentence splitting, the dictionaries and rule files) is a separate executable. The engine is not part of this model.
- `PyStr.Split` requires a non-empty separator. Python raises `ValueError` for an empty one, and the wrapper only ever passes `#line#`.
- Vinorm.TestedCombinations: compares only the switches after the executable. The expected lines in test_python_only.py:62-71 name the executable `./main`, but the code runs `dir + "/main.exe"` (vinorm/__init__.py:21). The model follows the code.
- Vinorm.RejoinSentences: the round trip from the engine's sentences to the returned text holds only when no sentence holds `#line#` and no sentence but the last ends in "#line". The wrapper cannot tell a sentence ending in "#line" from the start of a delimiter. `Vinorm.StraddledSentences` shows such a sentence losing its "#line" and the next one gaining "line#". The model keeps this behaviour of the source.
