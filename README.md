# Bloom filter and password-uniqueness check

This project models the Bloom filter of `task-1/main.py` and the password
classifier built on it.

- A `BloomFilter` has a fixed number of bits, `size`, all cleared at
  construction, and a number of hashes, `num_hashes`.
- An item's bit positions are `mmh3.hash(item, seed) % size` for the seeds
  `0 .. num_hashes-1`.
- `add` sets those bits. `check` reports whether all of them are set.
- `check_password_uniqueness` takes an ordered list of raw values and labels
  each one.
  - A non-string value, or a string that is empty after `strip()`, is
    "Incorrect password".
  - A value the filter already reports as present is "Possibly used".
  - Any other value is "Unique" and is added to the filter immediately, so
    later values see it.
  - Labels go into a dict keyed by the raw value, so a repeated value keeps
    the label of its last occurrence.

Files:

- `bloom.dfy` (module `Bloom`):
  - `HashScheme` is the filter's fixed configuration.
  - `Filter` is the class with the bit array (`array<bool>`): `Check` is a
    function that reads it, and `Add` is a method that updates it in place.
  - Functions on `seq<bool>` specify the filter: `AllSet`, `SetBits`,
    `CountSet` and `AddAll`.
- `passwords.dfy` (module `Passwords`):
  - The raw value type and the labels.
  - Python's whitespace and `strip()`.
  - The per-item step `Classify` and the whole run `Run`, as functions.
  - The method `CheckPasswordUniqueness`, which loops over the list against a
    `Filter` and is proved equal to `Run`.
  - Lemmas about the demonstration at the end of `task-1/main.py`.

Modelling decisions:

- `mmh3.hash` is a parameter of the filter: any function `HashFn` from a
  string and a seed to a signed 32-bit `Digest`. Every property here holds
  for every such function.
- Python's `%` with a positive divisor agrees with Dafny's `%` on `int`, so a
  negative digest still gives a position in `[0, size)`.
- `size == 0` is allowed, as in the code. With `num_hashes == 0`,
  `range(0)` is empty and no `% 0` is ever evaluated. So `add` and `check`
  require `size > 0 || num_hashes == 0` (`HashScheme.Defined`).
- The classifier hashes only valid values. It therefore needs
  `HashScheme.Defined` only when some input is valid (`CanClassify`).
- With zero hashes, `check` is vacuously true, as `all([])` is in Python.
- `bitarray(size)` starts with undefined contents and `setall(0)` clears it.
  The constructor models this as an uninitialised array and a clearing loop.
- Raw values are `Str(s) | NoneV | IntV(i)`, the kinds of values the
  demonstration passes.
- The result is a dict keyed by the raw value, so a repeated value keeps one
  label. It is modelled as a `map<Value, Label>` with overwrite on update.
- `__init__` validates neither `size` nor `num_hashes`, and
  `num_hashes == 0` is accepted.

## Model

| member | source | states |
|---|---|---|
| `Bloom.HashScheme.Indices` | task-1/main.py:13-15 | exactly `num_hashes` positions; the i-th is `hash(item, i) % size`; every one is below `size` |
| `Bloom.AllSet` | task-1/main.py:24 | `all(bits[i] for i in idx)` is true iff every listed bit is set |
| `Bloom.SetBits` | task-1/main.py:19-20 | setting the listed bits in order keeps the length; a bit is set afterwards iff it was set before or is listed |
| `Bloom.Zeros` | task-1/main.py:10-11 | a cleared array of `n` bits has length `n` and no set bit |
| `Bloom.SetBitsCovers` | task-1/main.py:19-20 | an add never clears a bit: every bit set before is set after |
| `Bloom.AddThenCheck` | task-1/main.py:17-24 | right after adding an item's positions, checking them is true |
| `Bloom.CheckPersists` | task-1/main.py:22-24 | a check that holds still holds once more bits are set |
| `Bloom.CountSetMonotone` | task-1/main.py:19-20 | the number of set bits never decreases while bits only go from 0 to 1 |
| `Bloom.CountSetUpdate` | task-1/main.py:20 | setting one bit raises the count by one exactly when that bit was clear |
| `Bloom.SetBitsCountBound` | task-1/main.py:17-20 | one add raises the number of set bits by at least 0 and at most the number of positions |
| `Bloom.AddAll` | task-1/main.py:47-49 | a sequence of adds keeps every bit that was set before it |
| `Bloom.NoFalseNegatives` | task-1/main.py:17-24 | after any sequence of adds, every item that was added checks true, whatever was added after it |
| `Bloom.Filter.constructor` | task-1/main.py:7-11 | a fresh filter with the given size, hash count and hash, whose bit array has `size` bits, all cleared |
| `Bloom.Filter.Check` | task-1/main.py:22-24 | true iff every bit at `hash(item, i) % size` is set, for each seed `i < num_hashes`; reads the bits and changes nothing |
| `Bloom.Filter.Add` | task-1/main.py:17-20 | the new bits equal the old bits with exactly the item's positions set; no bit is cleared; the count of set bits rises by at most `num_hashes`; afterwards `Check(item)` holds |
| `Passwords.TrimStart` | task-1/main.py:30 | the leading part of `strip()`: a suffix of the input; every dropped character is whitespace; the result starts with a non-space; it is empty iff the input is all whitespace |
| `Passwords.TrimEnd` | task-1/main.py:30 | the trailing part of `strip()`: a prefix of the input; every dropped character is whitespace; the result ends with a non-space; it is empty iff the input is all whitespace |
| `Passwords.IsSpace` | task-1/main.py:30 | the whitespace `strip()` removes, Python's `str.isspace` set (U+0009–000D, U+001C–0020, U+0085, U+00A0, U+1680, U+2000–200A, U+2028, U+2029, U+202F, U+205F, U+3000): never a letter or digit, always space, tab, newline and carriage return |
| `Passwords.Strip` | task-1/main.py:30 | `s.strip()` is empty iff `s` is all whitespace; otherwise it starts and ends with a non-space |
| `Passwords.IsValid` | task-1/main.py:30 | a value that passes the guard is a non-empty string |
| `Passwords.ValidIffStripped` | task-1/main.py:30 | a value passes the guard iff it is a string and its `strip()` is not empty |
| `Passwords.LabelTextsDistinct` | task-1/main.py:31-37 | the three labels print as three different texts ("Incorrect password", "Possibly used", "Unique") |
| `Passwords.Classify` | task-1/main.py:29-38 | a non-string or blank value is "Incorrect password" and the bits are unchanged; a valid value that checks true is "Possibly used" and the bits are unchanged; any other value is "Unique" and its positions are set; afterwards a valid value checks true |
| `Passwords.Run` | task-1/main.py:28-40 | classifying the list in order, each item against the bits left by the items before it, never clears a bit |
| `Passwords.ResultKeys` | task-1/main.py:28-40 | the result's keys are exactly the values of the input list |
| `Passwords.LastOccurrenceWins` | task-1/main.py:29-37 | a repeated value keeps the label of its last occurrence, computed against the filter as it stood then |
| `Passwords.RunNoFalseNegatives` | task-1/main.py:34-38 | after the run, every valid string of the input checks true in the filter |
| `Passwords.RunFrame` | task-1/main.py:34-38 | a bit set after the run was set before it or is a position of some valid input: nothing else is set |
| `Passwords.OnlyUniqueAdds` | task-1/main.py:34-38 | if no item is labelled "Unique", the filter's bits are unchanged |
| `Passwords.CheckPasswordUniqueness` | task-1/main.py:26-40 | the returned map and the filter's new bits are those of `Run`; the keys are exactly the input values; every valid input string checks true afterwards |
| `Passwords.DemoInputs` | task-1/main.py:52 | the seven demonstration inputs are pairwise distinct, so each keeps its own label |
| `Passwords.DemoRun` | task-1/main.py:44-53 | the demonstration run (three adds, then the seven inputs): every input gets a label, and nothing else does |
| `Passwords.DemoPreAddedPossiblyUsed` | task-1/main.py:44-53 | for any hash, "password123" and "admin123", added beforehand, are "Possibly used" |
| `Passwords.DemoRejected` | task-1/main.py:52-53 | for any hash, `""`, `None` and `12345` are "Incorrect password" |
| `Passwords.DemoNewAccepted` | task-1/main.py:52-53 | for any hash, "newpassword" and "guest" are not "Incorrect password" |

## Left out

- The internals of `mmh3.hash` are not modelled, because it is a foreign C
  library. It is a parameter, so the demonstration's exact outcome for
  "newpassword" and "guest" cannot be derived: "Unique" versus
  "Possibly used" depends on actual hash values.
- `bitarray` internals are not modelled. It is taken to be a fixed-length
  array of bits.
- False-positive rates are not modelled, because they are statistical.
- The printing loop at `task-1/main.py:55-57` is not modelled, because it is
  console output. The demonstration lemmas state the outcome it would print.
- `Bloom.Filter.constructor` takes `size` and `num_hashes` as naturals.
  - A negative `size` makes `bitarray` raise an error, which is not modelled.
  - A negative `num_hashes` gives an empty `range`, which is the same as 0.
- `Passwords.CheckPasswordUniqueness`: values outside
  `Str | NoneV | IntV` are not modelled.
  - These include floats, booleans, which Python equates with `0` and `1`
    as dict keys, and unhashable values, which would make the dict
    assignment raise.
  - The insertion order of the result dict is not modelled: a Dafny `map`
    is unordered.
- `task-2/main.py` is not part of this model.
  - It reads a log file and wraps the `datasketch` HyperLogLog library,
    whose estimator is not shown.
  - It times calls with the wall clock and prints a table.
