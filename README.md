# Tiny Tomcat startup resolver in Dafny

Tiny Tomcat is a one-class launcher (`Driver`) that starts an embedded Tomcat
serving one directory over HTTP. The launcher's own logic is the startup
configuration resolver. It reads the command-line arguments and chooses one
of two outcomes: print usage and exit, or serve a web root on a port.

- `getPort` reads the second argument with `Integer.parseInt`. It keeps the
  value only when `0 < port < 65535`. In every other case it falls back to
  the default port 8080: no second argument, a `NumberFormatException`, or a
  value out of range.
- `getWebRoot` returns the trimmed first argument. When that argument is
  missing or blank it returns `"."`.
- `isHelp` trims the first argument, lower-cases it, and compares it with
  `-h` and `--help`, ignoring case.
- The head of `main` asks `isHelp` first. Only when it is false are the port
  and the web root computed.
- The welcome files `index.html`, `index.htm`, `index` are handed to the
  web context in that order.

The model is pure. The resolver is a set of functions with contracts, and
lemmas state the rest. Three modules:

- `JavaText` (`java_text.dfy`): `String.trim()`, ASCII case mapping and
  `equalsIgnoreCase`.
- `JavaInteger` (`java_integer.dfy`): `Integer.parseInt` with radix 10, and
  its inverse `Integer.toString`.
- `Driver` (`driver.dfy`): the constants, `GetPort`, `GetWebRoot`, `IsHelp`,
  the decision `Decide(args) : Help | Serve(webRoot, port)` and the
  registration of the welcome files.

A Java `String[] args` is the datatype `Args = NullArgs | Args(items)`. The
array may be null, but its elements are never null, as the JVM passes them.
A Java string is a `seq<char>`. A `NumberFormatException` is `None`.

Three details of `Driver.java` decide edge cases:

- A blank first argument gives `"."`, because `getWebRoot` tests the
  trimmed argument for emptiness (`Driver.java:87`; `GetWebRootDefault`).
- The first argument is trimmed before it is compared with the help flags,
  so `" -H "` asks for help (`Driver.java:94`; `PaddedFlagIsHelp`).
- The second argument is handed to `parseInt` untrimmed, so `" 9000"` gives
  8080 (`Driver.java:73`; `GetPortRejectsPadding`).

The web root is not checked against the filesystem: `Driver.java:47` passes
`new File(webRoot).getAbsolutePath()` to Tomcat as it is. The model therefore
promises only a non-empty, trimmed root.

## Model

| member | source | states |
|---|---|---|
| `JavaText.Trim` | src/main/java/com/cwssoft/tinytomcat/Driver.java:87-88 | `trim()` never lengthens the string. The result is empty exactly when every char is at or below U+0020. Otherwise neither end of the result is such a char. |
| `JavaText.TrimSlice` | src/main/java/com/cwssoft/tinytomcat/Driver.java:87-88 | The trimmed string is a contiguous slice `s[i..j]` of the input. Everything cut off before `i` and after `j` is at or below U+0020. |
| `JavaText.TrimOfPadded` | src/main/java/com/cwssoft/tinytomcat/Driver.java:87-88 | Uniqueness: take any text whose ends are not blank and pad it on both sides with chars at or below U+0020. `trim()` gives back exactly that text. |
| `JavaText.TrimIdempotent` | src/main/java/com/cwssoft/tinytomcat/Driver.java:88 | Trimming twice is the same as trimming once. |
| `JavaText.ToLower` | src/main/java/com/cwssoft/tinytomcat/Driver.java:95 | `toLowerCase(Locale.US)` keeps the length and maps each char on its own. No upper-case ASCII letter is left in the result. |
| `JavaText.ToLowerIdempotent` | src/main/java/com/cwssoft/tinytomcat/Driver.java:95 | Lower-casing twice is the same as lower-casing once. |
| `JavaText.CharsEqualIgnoreCase` | src/main/java/com/cwssoft/tinytomcat/Driver.java:96 | One position of `equalsIgnoreCase` (`regionMatches` ignoring case): two chars match exactly when their ASCII lower-case forms are equal. |
| `JavaText.EqualsIgnoreCase` | src/main/java/com/cwssoft/tinytomcat/Driver.java:96 | `equalsIgnoreCase`: equal strings always match. Matching strings have the same length. Two strings match exactly when they have the same length and agree position by position after ASCII lower-casing. |
| `JavaText.EqualsIgnoreCaseIff` | src/main/java/com/cwssoft/tinytomcat/Driver.java:96 | Over ASCII, `equalsIgnoreCase` holds of two strings exactly when their lower-cased forms are equal. Both directions are proved. |
| `JavaInteger.DigitsValue` | src/main/java/com/cwssoft/tinytomcat/Driver.java:73 | `parseInt`'s left-to-right accumulation of a digit string. A string of n digits has a value below 10^n, and at least 10^(n-1) when it does not start with `0`. |
| `JavaInteger.ParseInt` | src/main/java/com/cwssoft/tinytomcat/Driver.java:73 | An accepted text is non-empty and is an optional sign followed by at least one digit. The text has no other chars, so no whitespace. The value fits the Java `int` range, and a negative value comes only after a `-`. |
| `JavaInteger.ParseSignedDigits` | src/main/java/com/cwssoft/tinytomcat/Driver.java:73 | Take no sign, `+` or `-`, followed by digits. `parseInt` accepts this text exactly when the signed value fits the `int` range, and then returns that value. Values outside the range are rejected as overflow. |
| `JavaInteger.ParseRejectsPadding` | src/main/java/com/cwssoft/tinytomcat/Driver.java:73 | A text that starts or ends with a char at or below U+0020 is rejected. |
| `JavaInteger.ParseLeadingZero` | src/main/java/com/cwssoft/tinytomcat/Driver.java:73 | A zero inserted after the optional sign (none, `+` or `-`) in front of digits never changes what `parseInt` returns: `-05` reads as `-5`, `+05` as `+5`, `05` as `5`. |
| `JavaInteger.NatDigits` | src/main/java/com/cwssoft/tinytomcat/Driver.java:73 | The decimal digits of a natural number are non-empty and all digits. They start with `0` exactly for zero, and are a single digit exactly below ten. |
| `JavaInteger.Show` | src/main/java/com/cwssoft/tinytomcat/Driver.java:73 | The decimal text of an `int` is non-empty. It starts with `-` exactly when the number is negative. |
| `JavaInteger.ParseShow` | src/main/java/com/cwssoft/tinytomcat/Driver.java:73 | Round trip: `parseInt(toString(n)) == n` for every Java `int` `n`. |
| `JavaInteger.ShowIsCanonical` | src/main/java/com/cwssoft/tinytomcat/Driver.java:73 | `toString` produces canonical text: no `+`, no leading zero, no `-0`. |
| `JavaInteger.ShowOfParse` | src/main/java/com/cwssoft/tinytomcat/Driver.java:73 | Converse round trip: canonical text accepted by `parseInt` equals `toString` of the value read. Canonical texts and `int`s are in one-to-one correspondence. |
| `Driver.GetPort` | src/main/java/com/cwssoft/tinytomcat/Driver.java:70-84 | The port is always strictly between 0 and 65535. A port other than 8080 comes from a second argument that `parseInt` reads as that port. Conversely, whenever `parseInt` reads the second argument as a value in (0, 65535), that value is the port, whatever its spelling (`+9000`, `09000`). |
| `Driver.GetPortOfDecimal` | src/main/java/com/cwssoft/tinytomcat/Driver.java:71-76 | Let the second argument be the decimal text of any integer `p`. The port is `p` when `0 < p < 65535`, and 8080 otherwise, so `0`, `65535` and numbers that overflow an `int` are refused. |
| `Driver.GetPortAccepted` | src/main/java/com/cwssoft/tinytomcat/Driver.java:73-76 | Suppose the port is not the default. Then there are at least two arguments. If the second one is canonical, it is the decimal text of the port. |
| `Driver.GetPortMissing` | src/main/java/com/cwssoft/tinytomcat/Driver.java:71 | A null array, or fewer than two arguments, gives 8080. |
| `Driver.GetPortMalformed` | src/main/java/com/cwssoft/tinytomcat/Driver.java:78-83 | A second argument that `parseInt` rejects gives 8080. |
| `Driver.GetPortRejectsPadding` | src/main/java/com/cwssoft/tinytomcat/Driver.java:73 | The second argument is not trimmed. A blank at either end of it gives 8080. |
| `Driver.GetPortOutOfRange` | src/main/java/com/cwssoft/tinytomcat/Driver.java:74 | A parsed value `<= 0` or `>= 65535` gives 8080. |
| `Driver.GetPortIgnoresOtherArgs` | src/main/java/com/cwssoft/tinytomcat/Driver.java:71-73 | The port depends only on the number of arguments and on the second argument. |
| `Driver.PlainPortAccepted` | src/main/java/com/cwssoft/tinytomcat/Driver.java:71-76 | The arguments `www 9000` give port 9000. |
| `Driver.SignedOrZeroPaddedPortAccepted` | src/main/java/com/cwssoft/tinytomcat/Driver.java:73-76 | `www +9000` and `www 09000` both give port 9000. |
| `Driver.UpperBoundRefused` | src/main/java/com/cwssoft/tinytomcat/Driver.java:74 | The arguments `www 65535` give 8080, because the bound 65535 is excluded. |
| `Driver.PaddedOrWordRefused` | src/main/java/com/cwssoft/tinytomcat/Driver.java:73-83 | The second arguments `" 9000"` and `"abc"` each give 8080. |
| `Driver.GetWebRoot` | src/main/java/com/cwssoft/tinytomcat/Driver.java:86-91 | The root is never empty and is unchanged by `trim()`. It is either `"."` or the trimmed first argument. |
| `Driver.GetWebRootDefault` | src/main/java/com/cwssoft/tinytomcat/Driver.java:87-90 | A null array, no arguments, or a blank first argument gives `"."`. |
| `Driver.GetWebRootPadded` | src/main/java/com/cwssoft/tinytomcat/Driver.java:87-88 | Let the first argument be non-blank text padded with blanks. The root is exactly that text. |
| `Driver.IsHelp` | src/main/java/com/cwssoft/tinytomcat/Driver.java:93-99 | Help is asked exactly when there is a first argument whose trimmed, lower-cased form is `-h` or `--help`. Both directions are proved. |
| `Driver.LowerOfFlag` | src/main/java/com/cwssoft/tinytomcat/Driver.java:94-96 | Any blank-padded spelling of a help flag, in any ASCII case, as the first argument asks for help, whatever arguments follow it. |
| `Driver.ShortFlagIsHelp` | src/main/java/com/cwssoft/tinytomcat/Driver.java:93-97 | The single argument `-h` asks for help. |
| `Driver.UpperLongFlagIsHelp` | src/main/java/com/cwssoft/tinytomcat/Driver.java:93-97 | `--HELP` asks for help on its own, and also when a port follows it. |
| `Driver.PaddedFlagIsHelp` | src/main/java/com/cwssoft/tinytomcat/Driver.java:94-96 | `" -H\t"` asks for help: the argument is trimmed before it is compared. |
| `Driver.OtherArgsAreNoHelp` | src/main/java/com/cwssoft/tinytomcat/Driver.java:93-98 | The word `foo` does not ask for help. |
| `Driver.Decide` | src/main/java/com/cwssoft/tinytomcat/Driver.java:32-38 | The outcome is `Help` exactly when `isHelp` holds. Otherwise it is `Serve(getWebRoot, getPort)`. A served configuration has a port in (0, 65535) and a non-empty, trimmed root that is never a help flag. |
| `Driver.ServedRootIsNoFlag` | src/main/java/com/cwssoft/tinytomcat/Driver.java:32-38 | When help is not requested, the root is not a help flag in any case. |
| `Driver.DecideDefaults` | src/main/java/com/cwssoft/tinytomcat/Driver.java:24-38 | A null array and an empty array do not ask for help. Both give `Serve(".", 8080)`, the constants `ROOT` and `PORT`. |
| `Driver.AddWelcomeFiles` | src/main/java/com/cwssoft/tinytomcat/Driver.java:61 | Registering files one by one in order leaves the context's list as the old list followed by the files, in the same order. |
| `Driver.WelcomeFilesOrder` | src/main/java/com/cwssoft/tinytomcat/Driver.java:26 | A fresh context receives `index.html`, `index.htm`, `index`, in that order. |

## Left out

- `JavaInteger.ParseInt`: only ASCII digits `0`-`9` are accepted. Java's `Character.digit` also accepts other Unicode decimal digits, such as Arabic-Indic or full-width digits. The model rejects those texts, where Java would read them as numbers.
- `JavaText.ToLower`: only `A`-`Z` are mapped. Non-ASCII chars are left unchanged. This cannot change the outcome of `isHelp`. The non-ASCII chars whose Java case mapping reaches ASCII map to `i`, `k` or `s`, and none of these occurs in `-h` or `--help`.
- `JavaText.EqualsIgnoreCaseIff`: proved for the ASCII case mapping above, not for Java's full Unicode case tables.
- `JavaText.CharsEqualIgnoreCase`: the char mappings are the ASCII ones above, so Unicode pairs that Java matches ignoring case (such as `K` and the Kelvin sign) do not match in the model.
- `JavaText.EqualsIgnoreCase`: inherits the ASCII restriction of `CharsEqualIgnoreCase`.
- A Java `char` is a UTF-16 code unit, while a Dafny `char` is a Unicode scalar value, so lone surrogates are not representable. The resolver only tests chars against U+0020, ASCII digits, signs and ASCII letters, so no outcome depends on this.
- Null elements inside `args`: the JVM never passes them to `main`.
- Building the embedded server (`Driver.java:42-59`): these are calls into Tomcat (`Tomcat`, `StandardContext`, `Wrapper`), whose code is not part of this model. That includes the `listings=false` setting and the servlet mapping.
- `addWelcomeFile` is modelled as appending to the context's welcome list. Tomcat's `StandardContext` is not part of this model.
- Request handling, welcome-file lookup, 404 responses and path-traversal protection all happen inside Tomcat's `DefaultServlet`, which is not part of this model.
- `tomcat.start()` and `getServer().await()` (`Driver.java:64-67`): socket I/O, blocking and concurrency.
- `printHelp` and `System.exit(1)` (`Driver.java:33-34`, `101-108`): output to stderr and process exit. Only the `Help` outcome is modelled.
- Logging calls: side effects with no effect on any outcome.
