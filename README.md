# Glitter utilities in Dafny

This project models the self-contained string and integer helpers in the Glitter exploit toolkit's `glitter_utils.py`:

- **Checksum forgery.** `ascii_checksum` adds up the code points of a string. The server's login check compares this sum against a reference value. `least_chars_for_ascii_checksum` builds a "forged password" whose checksum is a given target. It emits `chr(127)` while at least 127 remains, then one character for the remainder.
- **Response tokeniser.** `parse_response_data` deletes every dirty character (default `#}{"`) from a server reply. It then splits the result on a separator (default `,`) the way Python's `str.split` does.
- **Password recovery code.** `make_password_recovery_code` writes each decimal digit of a user id as the letter `A`–`J`. It puts a `%d%m` date stamp in front and a `%H%M` time stamp behind.

Files and modules:

- `outcomes.dfy` (`Outcomes`): `Result` and `Option`. These stand in for Python's exceptions.
- `checksums.dfy` (`Checksums`): `Checksum` is a function. `LeastCharsForChecksum` is a method with the source's `while` loop. `Forged` is the closed form the method is proved equal to.
- `response_parsing.dfy` (`ResponseParsing`): `ParseResponseData` is a method with the source's `for` loop over the dirty characters. `RemoveAll` models `str.replace(c, "")`. `Find`, `Split` and `Join` model `str.find`, `str.split` and `str.join`.
- `recovery_codes.dfy` (`RecoveryCodes`): `MakeRecoveryCode` is a function. It takes the two clock readings as parameters. `ParseRecoveryCode` reads a code back into its fields.

Reference definitions. These members specify the operations above and model no source lines of their own, so they have no row in the table:

- `Checksums.Forged` is the closed form of the forged string.
- `ResponseParsing.Join` is Python's `sep.join(parts)`. It is the partner that `JoinSplit` and `SplitJoin` relate to `Split`.
- `RecoveryCodes.Digits` maps `A`–`J` back to the digits.
- `RecoveryCodes.ParseRecoveryCode` reads a code back into its fields.

Modelling choices:

- A Python `str` is a `string`, and `ord`/`chr` are conversions between `char` and `int`.
- When `least_chars_for_ascii_checksum` gets `target <= 0`, it returns `""`. The model does exactly this and does not treat it as an error.
- Python raises `ValueError` when `str.split` gets an empty separator. The model returns `Err(EmptySeparator)` instead.
- Python raises `KeyError` when the translation table has no entry for a character. The model returns `Err(c)`, where `c` is the first such character in the id, because the list comprehension stops there.
- `datetime.now()` is read twice in the source. The model passes in two separate `Clock` readings: the date stamp uses the first and the time stamp uses the second.
- The shortest-length claim holds only among strings whose codes are at most 127. A Python string may hold larger code points, and one character `chr(t)` reaches any target `t` below 0x110000. The model states minimality over codes ≤ 127, because that is the ASCII scope the function's name gives.

## Model

| member | source | states |
|---|---|---|
| `Checksums.Checksum` | glitter_utils.py:6-16 | The checksum is the sum of the code points. It is zero exactly when every character is NUL. |
| `Checksums.ChecksumEmpty` | glitter_utils.py:16 | The empty string has checksum 0. |
| `Checksums.ChecksumAppend` | glitter_utils.py:16 | The checksum is additive: `Checksum(a + b) == Checksum(a) + Checksum(b)`. |
| `Checksums.ChecksumBound` | glitter_utils.py:16 | If every code is at most 127, the checksum is at most 127 times the length. |
| `Checksums.ForgedChecksum` | glitter_utils.py:18-45 | The built string's checksum is the target when the target is positive, and 0 otherwise. So the builder inverts the checksum. |
| `Checksums.ForgedShape` | glitter_utils.py:32-43 | Every code is in [1,127]. Every character except the last is `chr(127)`. The last is `chr(t mod 127)` when that remainder is non-zero, and `chr(127)` otherwise. A positive target gives a non-empty string. |
| `Checksums.ForgedLength` | glitter_utils.py:28-43 | The length is ⌈t/127⌉ for `t > 0`, and 0 for `t <= 0`. |
| `Checksums.ForgedIsShortest` | glitter_utils.py:18-26 | No string with codes ≤ 127 and checksum `t` is shorter than the built one. This is the "least number of characters" claim. |
| `Checksums.ShorterBeyondAscii` | glitter_utils.py:18-26 | Without the 127 bound the shortest-length claim fails: `chr(200)` alone has checksum 200, but the built string for 200 has two characters. |
| `Checksums.ForgedExamples` | glitter_utils.py:37-43 | Targets 0, 127, 128 and 254 give `""`, `chr(127)`, `chr(127)+chr(1)` and `chr(127)+chr(127)`. |
| `Checksums.ForgedPasswordMatches` | glitter_extended_toolkit.py:20-24 | The user name followed by the string forged for `c - Checksum(u)` has checksum `c` exactly when `c >= Checksum(u)`. |
| `Checksums.LeastCharsForChecksum` | glitter_utils.py:28-45 | The loop returns `Forged(target)`. That is `""` for `target <= 0`, and otherwise a string with checksum `target` and every code in [1,127]. The loop invariant is `Checksum(result) + rest == target`, and `rest` decreases to exactly 0. |
| `ResponseParsing.Find` | glitter_utils.py:136 | The index returned is either -1 or a position where the separator occurs. |
| `ResponseParsing.FindIsFirst` | glitter_utils.py:136 | `Find` gives -1 exactly when the separator does not occur. Otherwise no occurrence starts before the index it gives. |
| `ResponseParsing.Split` | glitter_utils.py:136 | Splitting on a non-empty separator gives at least one piece. |
| `ResponseParsing.RemoveAll` | glitter_utils.py:133 | `replace(c, "")` leaves no `c` in the string. Every other character keeps its multiplicity. |
| `ResponseParsing.Clean` | glitter_utils.py:132-133 | After cleaning, a character is present exactly when it was in the input and is not dirty. |
| `ResponseParsing.RemoveAllAfterClean` | glitter_utils.py:132-133 | Deleting one more character after cleaning is the same as cleaning with that character added to the dirty set. This is the for loop's step. |
| `ResponseParsing.JoinSplit` | glitter_utils.py:136 | `sep.join(s.split(sep)) == s` for every `s` and every non-empty `sep`. |
| `ResponseParsing.SplitPiecesAvoidSeparator` | glitter_utils.py:136 | No piece of a split contains the separator. |
| `ResponseParsing.SplitPiecesWithin` | glitter_utils.py:136 | Every character of a piece is a character of the string that was split. |
| `ResponseParsing.SplitJoin` | glitter_utils.py:136 | With a one-character separator and pieces that do not contain it, `sep.join(parts).split(sep) == parts`. |
| `ResponseParsing.ParseOfJoin` | glitter_utils.py:119-138 | Parsing a join gives back the pieces when both of these hold: they are joined with a one-character separator that is not dirty, and they contain neither the separator nor any dirty character. This is a sufficient condition, not a characterisation. |
| `ResponseParsing.ParseResponseData` | glitter_utils.py:119-138 | An empty separator is the only error. Otherwise the result is `Split(Clean(data, dirty), sep)`. It has at least one piece, joining it gives back the cleaned data, no piece contains the separator, and every character of a piece comes from `data` and is not dirty. |
| `RecoveryCodes.TranslateIsLetterShift` | glitter_utils.py:59-70 | The table's keys are exactly `0`–`9`, and digit d maps to the letter `'A' + d`. |
| `RecoveryCodes.Letters` | glitter_utils.py:72-74 | Translation succeeds exactly when every character is a digit. On success the result has the id's length, and position i holds `'A' + digit(i)`. On failure the error is the first non-digit character. |
| `RecoveryCodes.LettersDigitsInverse` | glitter_utils.py:59-74 | `Letters(id) == Ok(l)` exactly when `Digits(l) == Some(id)`. So the translation is a bijection between digit strings and strings over `A`–`J`. |
| `RecoveryCodes.TwoDigits` | glitter_utils.py:75 | The stamp field is two decimal digits, and their value is the number. |
| `RecoveryCodes.DateStamp` | glitter_utils.py:75 | `%d%m` is four characters. |
| `RecoveryCodes.TimeStamp` | glitter_utils.py:75 | `%H%M` is four characters. |
| `RecoveryCodes.MakeRecoveryCode` | glitter_utils.py:47-77 | The code is defined exactly when the id is all digits; otherwise it is the KeyError. A code has length `|id| + 8`. It starts with the date stamp of the first reading, ends with the time stamp of the second, and holds the letter for `id[i]` at position `4 + i`. |
| `RecoveryCodes.ReadTwoDigitsInverse` | glitter_utils.py:75 | Reading a two-digit field back gives the number that was written. |
| `RecoveryCodes.RecoveryCodeRoundTrip` | glitter_utils.py:47-77 | Parsing a recovery code gives back the day, month, id, hour and minute it was made from. |

## Left out

- ForgedIsShortest: proves minimality only among strings whose codes are at most 127. Over Python's full code-point range the docstring's "least number of characters" claim is false, and `ShorterBeyondAscii` exhibits the counterexample.
- `send_generic_website_message`, `send_generic_app_message`, `request_user_checksum`, `authenticate_user_app`, `authenticate_user_website`, `delete_user_website`, `get_user_id_website`, `like_post_app` and `like_post_website` are left out. They are HTTP and raw-socket I/O against fixed endpoints, and they have no contract of their own.
- `extract_glit_id_website`, `extract_post_id_app`, `get_post_id_website` and `get_post_id_app` are left out. They read packet objects from a third-party sniffing library inside a blocking callback.
- `datetime.now()` is not modelled, because it is a clock read. Its two readings are the `Clock` parameters of `MakeRecoveryCode`, and `Clock.Valid` gives the ranges `datetime` guarantees.
- glitter_extended_toolkit.py is left out: it is interactive menus and network calls. Its one piece of arithmetic, lines 20-24, is what `ForgedPasswordMatches` states.
- tokenizer.py is not part of this model. It wraps an external machine-learning tokenizer.
- `ParseResponseData` models `str.split` only with a string separator. Passing `None` selects Python's whitespace splitting, which no caller in the source does.
- `SplitJoin` requires a one-character separator. With a longer separator that overlaps itself, splitting a join can give different pieces: `"aa".join(["a", ""])` splits as `["", "a"]`. `JoinSplit` holds for every non-empty separator.
- Python strings can hold lone surrogate code points, and Dafny's `char` cannot. No operation here depends on them.
