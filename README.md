# pwstore, modelled in Dafny

`pwstore` is a command-line password store kept in a Python `shelve` file.
This project models its two cores and proves properties of them:

* **The codec** (`pw_encode` / `pw_decode`). Each plaintext character's code
  point is added, modulo 256, to the key character at position
  `i % len(key)`. The resulting characters are UTF-8 encoded (RFC 3629) and
  written in the URL- and filename-safe Base64 alphabet (section 5 of
  RFC 4648). Decoding undoes both layers and subtracts the key modulo 256.
  Both functions are index loops that append to a list. They are modelled as
  methods (`Codec.PwEncode`, `Codec.PwDecode`) with loop invariants, proved
  equal to the functions `Codec.Encoded` / `Codec.Decoded`. The lemmas are
  stated about those functions. The two transport layers are modelled
  concretely (modules `Utf8` and `Base64`), with their own round-trip proofs.
* **The store** (`initialize_storge`, `Entry`, `pws_add`). The shelf is a map
  from string keys to values. A value is either the integer counter under
  `_serial` or an `Entry`. `Store.Shelf` is the open shelf, updated in place.
  Its methods are proved equal to the functions `Store.Initialized` and
  `Store.AddEntry`, and the lemmas are about those functions. `pws_add` builds
  `ctx = context + "_" + username`. It refuses the add if any key, `_serial`
  included, ends with `ctx`. Otherwise it stores a new `Entry` (password `''`)
  under `str(serial) + "_" + ctx` and increments `_serial`.

`pw_encode` and `pw_decode` exist, but nothing in the program calls them.
Keys are the plain text `str(serial) + "_" + context + "_" + username`, and
entries are stored unencrypted; the model does the same.

Python strings are Dafny `string`s (Unicode scalar values); `ord(c)` is
`c as int`. Python's `%` floors and Dafny's is Euclidean. For the positive
divisors used here (256, `len(key)`) the two agree. `Entry` is a datatype,
not a class: `shelve` stores a pickled copy, and nothing in the modelled code
changes an `Entry` after construction. When `--note` is not given,
`args.note` is `None`, and `pws_add` passes it to `Entry` explicitly, so the
stored note is `None`. `Entry.note` is therefore an `Option<string>`.

Files: `wrappers.dfy` (Option, Result), `bytes.dfy` (the byte type), `utf8.dfy`, `base64.dfy`,
`codec.dfy`, `store.dfy`.

## Model

| member | source | states |
|---|---|---|
| `Utf8.Encode` | pwstore.py:91 | `s.encode()` has at least one and at most four bytes per character |
| `Utf8.EncodeChar` | pwstore.py:91 | one character becomes 1 to 4 bytes; exactly one byte iff it is below U+0080 |
| `Utf8.DecodeChar` | pwstore.py:96 | a successful read of one character consumes between 1 and 4 bytes, never more than are there |
| `Utf8.Decode` | pwstore.py:96 | a strict `bytes.decode()` that succeeds yields at most one character per byte and at least one per four bytes |
| `Utf8.DecodeEncode` | pwstore.py:91-96 | strict UTF-8 decoding of `s.encode()` gives back `s` for every string |
| `Utf8.EncodeLength` | pwstore.py:91 | the encoding has exactly one byte per character iff every character is below U+0080 |
| `Base64.Symbol` | pwstore.py:91 | no alphabet symbol is the padding character `=` |
| `Base64.ValueOf` | pwstore.py:96 | a character the decoder accepts is the alphabet symbol of the value it is read as |
| `Base64.Encode` | pwstore.py:91 | the Base64 text has 4 characters for every started group of 3 bytes |
| `Base64.Decode` | pwstore.py:96 | in the model, `urlsafe_b64decode(s)` succeeds only on a length that is a multiple of 4, giving 3 bytes per quantum less at most 2 for padding |
| `Base64.EncodeAlphabet` | pwstore.py:91 | every character written is a symbol of the url-safe alphabet or `=` |
| `Base64.DecodeEncode` | pwstore.py:91-96 | `urlsafe_b64decode(urlsafe_b64encode(b)) == b` for every byte string |
| `Codec.Enciphered` | pwstore.py:85-89 | the list the encoding loop collects: one character per plaintext character, each below U+0100 |
| `Codec.Deciphered` | pwstore.py:95-100 | the list the decoding loop collects: one character per inner character, each below U+0100 |
| `Codec.Encoded` | pwstore.py:84-91 | `pw_encode` raises exactly when the plaintext is non-empty and the key empty; otherwise its text has a length that is a multiple of 4 and at least the plaintext's |
| `Codec.Decoded` | pwstore.py:94-102 | in the model, a successful `pw_decode` read a text whose length is a multiple of 4, returns at most 3 characters per 4 read, all below U+0100; a modulo-by-zero failure means the key was empty |
| `Codec.PwEncode` | pwstore.py:84-91 | the encoding loop produces exactly `Encoded(key, clear)`; it fails iff the plaintext is non-empty and the key empty |
| `Codec.PwDecode` | pwstore.py:94-102 | the decoding loop, after the transport decoding, produces exactly `Decoded(key, text)`, with each failure case |
| `Codec.SubtractKey` | pwstore.py:95-102 | the decoding loop raises on a non-empty text with an empty key, and otherwise returns exactly `Deciphered(key, inner)` |
| `Codec.CyclicKeyReuse` | pwstore.py:86-88 | positions `i` and `i + len(key)` use the same key character, so equal plaintext there gives equal output |
| `Codec.DecipherEnciphered` | pwstore.py:86-100 | subtracting the key undoes adding it, up to reduction modulo 256 of each plaintext code point |
| `Codec.TransportRoundTrip` | pwstore.py:91-96 | the UTF-8 and Base64 layers lose nothing |
| `Codec.DecodeEncoded` | pwstore.py:84-102 | for a non-empty key, `pw_decode(key, pw_encode(key, s))` succeeds with `chr(ord(c) % 256)` for each character `c` of `s` |
| `Codec.RoundTrip` | pwstore.py:84-102 | for a non-empty key and text below U+0100, `pw_decode(key, pw_encode(key, s)) == s` |
| `Codec.RoundTripFailsAbove255` | pwstore.py:88-99 | with a non-empty key, a plaintext holding any character at or above U+0100 does not come back as itself: the round trip fails outside 0..255 |
| `Codec.CrossKeyShift` | pwstore.py:88-99 | deciphering under `k2` what was enciphered under `k1` shifts each position by the difference of the two key characters, modulo 256 |
| `Codec.KeyAgreement` | pwstore.py:86-100 | deciphering under `k2` what was enciphered under `k1` restores a text below U+0100 iff the key characters agree modulo 256 at every position |
| `Codec.KeyAgreementEndToEnd` | pwstore.py:84-102 | `pw_decode(k2, pw_encode(k1, s)) == s`, for `s` below U+0100, iff the key characters agree modulo 256 at every position |
| `Codec.RepeatedKeyDecodes` | pwstore.py:84-102 | another key also decodes: `pw_decode(key + key, pw_encode(key, s)) == s` for every `s` below U+0100 |
| `Codec.EmptyText` | pwstore.py:84-102 | the empty plaintext encodes to `""` under any key, the empty key included, and `""` decodes to `""` |
| `Codec.EmptyKey` | pwstore.py:86-99 | a non-empty plaintext with an empty key raises (modulo by zero); decoding with an empty key can only succeed with `""` |
| `Store.NewEntry` | pwstore.py:202-206 | `Entry(...)` keeps the context, username, password and note it is given |
| `Store.NewEntryDefaults` | pwstore.py:202-206 | arguments left out of `Entry(...)` default to `''`, a missing note to `''`, and a note passed in is kept as given |
| `Store.Ctx` | pwstore.py:231 | `ctx` is the context, one `_`, then the username |
| `Store.EndsWith` | pwstore.py:234 | `k.endswith(ctx)` holds iff `k` is some text followed by `ctx` |
| `Store.Digits` | pwstore.py:248 | `str(n)` of a natural number is non-empty decimal digits without a leading zero |
| `Store.Decimal` | pwstore.py:248 | `str(serial)` is non-empty and holds no `_` |
| `Store.DigitsRoundTrip` | pwstore.py:248 | the digits of `n` denote `n` |
| `Store.DecimalRoundTrip` | pwstore.py:248 | `int(str(n)) == n` for every integer |
| `Store.StorageKey` | pwstore.py:248 | the new key is `str(serial)`, one `_`, then `ctx` |
| `Store.StorageKeyInjective` | pwstore.py:248 | equal keys `'{}_{}'.format(serial, ctx)` have equal serials and equal context texts |
| `Store.StorageKeyEndsWithCtx` | pwstore.py:231-248 | a storage key ends with the `ctx` it was built from and is never `_serial` |
| `Store.Initialized` | pwstore.py:180-191 | after seeding, `_serial` is present |
| `Store.InitializedIdempotent` | pwstore.py:183-185 | seeding twice equals seeding once; it adds only `_serial` and changes no existing key |
| `Store.AddEntry` | pwstore.py:220-256 | the add is refused iff some key ends with `context + "_" + username`; it fails with KeyError iff nothing clashes and `_serial` is absent; either way the shelf is unchanged |
| `Store.AddedKeyIsFresh` | pwstore.py:238-253 | a successful add inserts exactly one key, `str(serial) + "_" + ctx`, that was not present, holding `Entry(context, username, '', note)`; `_serial` goes up by one; all other keys are unchanged |
| `Store.AddTwiceRefused` | pwstore.py:231-253 | after a successful add, the same context and username are refused whatever the note |
| `Store.SuffixCheckOverreaches` | pwstore.py:231-237 | an existing key `"1_xa_b"` blocks adding context `"a"`, user `"b"`: the check is a bare suffix test |
| `Store.SerialKeyBlocksItsSuffix` | pwstore.py:227-237 | the check also scans `_serial`, so context `""` with user `"serial"` is always refused |
| `Store.StoredKeyEndsWithCtx` | pwstore.py:248-249 | in a well-formed shelf every entry's key ends with that entry's own context text |
| `Store.InitializedEmptyWellFormed` | pwstore.py:180-191 | seeding an empty shelf gives a well-formed shelf: counter 1, no entries |
| `Store.InitializedKeepsWellFormed` | pwstore.py:180-191 | seeding a well-formed shelf changes nothing |
| `Store.AddPreservesWellFormed` | pwstore.py:220-256 | every add keeps these facts: counter = number of keys, each entry under an earlier serial and its own context text, context texts pairwise distinct |
| `Store.KeysEndingWith` | pwstore.py:227-234 | the filter over the key list returns exactly the keys ending with `ctx` |
| `Store.Shelf.constructor` | pwstore.py:181 | the opened shelf holds the given map |
| `Store.Shelf.InitializeStorage` | pwstore.py:180-191 | in place: `_serial` set to 1 if absent, the shelf otherwise unchanged |
| `Store.Shelf.Add` | pwstore.py:220-256 | in place: the outcome and new contents are those of `AddEntry`, and a well-formed shelf stays well-formed |

## Left out

- `Prompt` (the interactive `cmd.Cmd` loop), `initialize_parser` (argparse), `initialize_logger`, every `logging` call, and `main`: user interface and glue (pwstore.py:31-81, 105-177, 318-341).
- Opening and closing the `shelve` file, persistence across runs, and the `SystemExit` raised by `initialize_storge` for an error other than `KeyError`. The shelf is an in-memory map.
- `Entry.last_updated`: a clock reading. `Entry.date_added` is never set and stays the class attribute `None`.
- `Entry.__eq__` (every two Entries compare equal) and `Entry.__repr__`: debugging helpers. The model compares entries by their fields.
- `pws_remove`, `pws_update`, `pws_get`, `pws_shred`: the code only logs and returns `None`, so there is no behaviour to model.
- `pws_list`: fixed-width printing of the entries.
- `setup.py`: packaging metadata.
- Python strings holding lone surrogate code points (U+D800..U+DFFF): a Dafny `char` cannot hold one. `pw_encode` and `pw_decode` accept them in `key` (both functions) and in `clear` (`pw_encode`), because only the reduced characters below U+0100 are UTF-8 encoded, so the model does not cover those calls. Only the store's key write (`s[key] = entry`, which UTF-8-encodes the key) rejects them.
- Base64.Decode: reads only whole groups of four, with padding only in the last group and url-safe symbols only. Leftover bits below the last byte are ignored, as CPython does. CPython's lenient decoder also skips characters outside the alphabet (a trailing newline, say), accepts `+` and `/`, and stops at padding followed by more text. Those inputs are decoding failures in the model. Text written by `pw_encode` is always canonical, so no round trip depends on this.
- Store.AddEntry: requires that `_serial`, when present, holds an integer. The program never stores anything else there. If an Entry sat under `_serial`, the key would be built from the Entry's timestamped repr, and a TypeError would follow after the write.
