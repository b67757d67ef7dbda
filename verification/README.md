# Installer for the Intel Graphics Compute Runtime — Dafny model

`install.py` is an installer for Intel's compute-runtime. As written, it
fetches a release's page from GitHub and goes no further: `main` discards
the page it gets. Apart from HTTP and terminal I/O, it holds three pieces of
deterministic logic. This project models them in Dafny and proves their
properties:

- **Terminal status output** (`terminal.dfy`). `c()` builds ECMA-48 SGR
  colour sequences (ECMA-48 section 8.3.117). `print_` puts a coloured
  `[NAME]` prefix before each message. In replace mode the prefix starts
  with cursor-up (CUU, section 8.3.22) and the messages end with
  erase-in-line (EL, section 8.3.41). The prefix always moves the cursor to
  column 1 (CHA, section 8.3.9). `print_` is a method whose local
  `prefix`/`args` are reassigned as in the script. The rest are functions.
  A status keeps its colour as the colour number it passes to `c()`; its
  colour sequence is computed from that number.
- **Release page selection** (`release.dfy`). `"latest"` requests
  `…/releases/latest`. Any other token requests `…/releases/tag/<token>`.
  The reported latest version is `url.split('/')[-1]` of the final URL.
  `get_release_page` is a pure function: the HTTP request is a parameter
  `get: string -> Response`. The function returns the status lines it
  prints and how it ends (the page text, or `exit(1)`).
- **Command-line dispatch** (`cli.dfy`). The `__main__` checks run in the
  script's order: help, argument count, version, unknown option, then
  `main` with the first argument or `"latest"`. The argument vector is the
  program name plus the user arguments, because `"-h" in sys.argv` also
  searches the program name. An empty first argument makes
  `sys.argv[1][0]` raise, so it gets its own `IndexError` outcome
  (exit status 1).

Python builtins the logic depends on are written out:

- `str(int)` is in `decimal.dfy`, proved to parse back to the same integer.
- `sep.join` and `str.split` for a one-character separator are in
  `strings.dfy`. Each is proved to undo the other.

`wrappers.dfy` holds the `Option` type.

The script accepts at most one release argument. It checks the argument
count before the version flag and checks for an unknown option last. It
has no interrupt handling.

## Model

| member | source | states |
|---|---|---|
| Strings.Join | install.py:42 | `';'.join(l)`: empty for no parts, the part itself for one part, each result starts with its first part |
| Strings.Split | install.py:89 | `split('/')` always yields at least one piece, even for the empty string |
| Strings.SplitJoin | install.py:42 | splitting a join of separator-free parts gives back exactly those parts |
| Strings.JoinSplit | install.py:89 | joining the pieces of a split gives back the original string |
| Strings.LastSegmentIsTail | install.py:89 | `split(sep)[-1]` is a separator-free suffix of the string that is either the whole string or directly preceded by the separator, i.e. the text after the last separator |
| Strings.LastSegmentAfter | install.py:89 | for `p + sep + t` with no separator in `t`, `split(sep)[-1]` is `t` whatever `p` is |
| Decimal.NatToString | install.py:40-41 | the decimal text of a natural number has at least one digit, only digits and no leading zero |
| Decimal.IntToString | install.py:40-41 | `str(i)` is non-empty, holds only digits and `-`, and starts with `-` exactly when `i` is negative |
| Decimal.IntRoundTrip | install.py:40-41 | parsing `str(i)` gives back `i` for every integer |
| Terminal.FgCode | install.py:40 | the foreground parameter is `fg+90` when bright and `fg+30` otherwise, for every integer `fg`; for colours 0..7 it lies in 30..37 or 90..97 |
| Terminal.BgCode | install.py:41 | the background parameter is `bg+100` when bright and `bg+40` otherwise, for every integer `bg`; for colours 0..7 it lies in 40..47 or 100..107 |
| Terminal.SgrCodes | install.py:39-41 | the list holds one parameter per colour given, the foreground one first and the background one last |
| Terminal.Texts | install.py:40-41 | one text per parameter, none containing the `;` separator |
| Terminal.Sgr | install.py:38-42 | every sequence `c` returns starts with `ESC [` and ends with `m` |
| Terminal.SgrRoundTrip | install.py:38-42 | parsing the sequence `c` returns gives back exactly the parameter list it was built from, in order (so no stray or trailing separator) |
| Terminal.ResetIsBare | install.py:38-42 | `c()` with no colour is exactly `ESC [ m` |
| Terminal.SgrBoth | install.py:38-42 | with both colours the result is `ESC [ fg ; bg m`, foreground parameter first |
| Terminal.SgrSingle | install.py:38-42 | with one colour the result is `ESC [ code m` holding only that colour's parameter |
| Terminal.Replaces | install.py:52 | replace mode is the `replace=` keyword when given, the status's third field otherwise |
| Terminal.DefaultReplace | install.py:44-48 | OK and FAIL overwrite the line above by default, EMPTY, INFO and WARN do not, and `replace=False` overrides FAIL |
| Terminal.Bracketed | install.py:51 | `[name]` is `[`, then exactly the name, then `]` |
| Terminal.Tag | install.py:51 | the tag is cursor-to-column-1, then the status's colour sequence, then the bracketed status name, then the reset sequence `c()`; each piece is located by position and the length is exactly their sum |
| Terminal.Prefix | install.py:51-53 | the prefix starts with cursor-up exactly when in replace mode (with CHA otherwise), ends with the tag, and is three characters longer in replace mode |
| Terminal.PrintFields | install.py:50-57 | `print` receives the prefix, then the messages unchanged and in order, then an erase-in-line only when in replace mode and at least one message was given |
| Release.ReleaseUrl | install.py:21 | `RELEASE_URL.format(arg)` is the fixed releases base followed by `arg` |
| Release.PageUrl | install.py:69-74 | `"latest"` requests `…/releases/latest`, any other token requests `…/releases/tag/<token>` |
| Release.PageUrlInjective | install.py:69-74 | two tokens that build the same URL are the same token: no tag's URL equals the latest release's URL |
| Release.VersionOf | install.py:89 | the reported version contains no `/` and is the text after the last `/` of the final URL |
| Release.VersionOfPageUrl | install.py:69-89 | reading the version back from the page URL of a `/`-free token gives that token |
| Release.Announce | install.py:69-73 | the pending line is one EMPTY message with no `replace` keyword; for `"latest"` it is "Getting latest release details...", for any other token the token appears at a fixed position in the message |
| Release.AnnounceInjective | install.py:69-73 | different tokens give different pending lines |
| Release.Explanation | install.py:83-96 | after a connection error the explanation is "Encountered " followed by the reason; after an unsuccessful response it is the status message; the first letter tells the two apart |
| Release.StatusMessage | install.py:93-96 | the failure explanation is "Release not found." exactly when the status code is 404; otherwise it is "Status code: " followed by text that parses back to the status code |
| Release.GetReleasePage | install.py:64-99 | the page requested is the token's page URL. The page text is returned exactly when the response is truthy; every other ending is `exit(1)` after FAIL and one INFO line carrying the explanation for that response. The pending line is printed first, and the next line is a bare OK on success or FAIL otherwise (both overwrite it by default, see `Terminal.DefaultReplace`). "Latest release" is reported only for `"latest"`, from the final URL |
| Release.LatestReportsTag | install.py:86-90 | when the latest-release request is redirected to the page of tag `t`, the reported latest release is `t` |
| Cli.RunMain | install.py:126-127 | `main` fetches the page for the first argument, or for the latest release when there is none, and gets its text exactly when that URL gives a truthy response |
| Cli.ReleaseToken | install.py:127 | `main` uses the first argument, or `"latest"` when there is none |
| Cli.Dispatch | install.py:130-149 | a run starts only with at most one argument, no help or version flag anywhere in argv, and a non-empty token not starting with `-`; an unknown option is the single argument that starts with `-` |
| Cli.DispatchCases | install.py:131-149 | each outcome happens under exactly one condition on argv: help if a help flag is present; too many arguments if there are more than one; version if a version flag is present; crash on an empty argument; unknown option on a leading `-`; otherwise a run |
| Cli.HelpWins | install.py:131-133 | a help flag anywhere gives help, whatever the argument count |
| Cli.CountBeforeVersion | install.py:135-142 | with more than one argument and no help flag, the count error wins over `-v` or `--version` anywhere in argv |
| Cli.VersionBeforeOption | install.py:140-147 | `-v` or `--version` as the only argument shows the version rather than being rejected as an unknown option |
| Cli.Complaint | install.py:135-147 | exactly the two argument errors print a FAIL line, one line and never overwriting the line above; every other outcome prints none. Too many arguments prints "Too many arguments!"; an unknown option prints a message that quotes the option |
| Cli.ComplaintInjective | install.py:144-145 | two different rejected options give different complaints |
| Cli.ExitStatus | install.py:126-149 | the exit status is 0 or 1, and 0 exactly for help, for version with at most one argument, or for a run whose release request gets a truthy response |

## Left out

- The HTTP requests themselves are left out (`requests.get`, redirects, `r.text`). `get` is a parameter, and a response's truth value (`ok`) is a field given with it.
- The walk down the `ConnectionError` reason chain (install.py:75-84) is left out. It depends on the internal structure of `requests`/`urllib3` exceptions. The model takes the extracted reason as a string. If the walk itself fails, the script prints an intermediate object and ends by the propagating exception; the model does not capture that.
- Writing to the terminal is left out. The model stops at the fields passed to `print`, which joins them with single spaces. Any `sep` a caller passes is discarded. The `end`, `file` and `flush` keywords are not modelled.
- Process termination is left out: `exit` becomes an `Exit(code)` ending or an exit-status value.
- The usage text (`print_usage`, install.py:102-119) is left out. The version line `<name> v0.1.0` is also left out, because both render `basename(sys.argv[0])`, a path operation that is not part of this model.
- The unused `curses` import is left out.
- Release.GetReleasePage: only `ConnectionError` is caught (install.py:75). Any other exception `requests.get` raises, such as too many redirects or a body that breaks off, escapes with a traceback after the pending EMPTY line and no FAIL line. `Response` has no case for it, so the model does not capture that ending.
- Cli.ExitStatus: an interrupt (Ctrl-C) ends the process through `KeyboardInterrupt` with a status other than 0 or 1. The model does not capture that. The same holds for the uncaught exceptions named in the previous line.
- Release.PageUrl: the model stops at the URL string passed to `requests.get`. `requests` normalises it before sending, for example by removing dot segments, so two different URL strings can fetch the same page (`tag/../latest`). That normalisation is not modelled.
- Strings are sequences of Unicode scalar values. On POSIX, Python keeps undecodable bytes of `sys.argv` as lone surrogates, and such an argument makes the script raise `UnicodeEncodeError` when it prints or requests it. The model's arguments cannot hold such characters, so that ending is not captured.
