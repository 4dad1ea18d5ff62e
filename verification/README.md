# graf-report in Dafny

A model of the logic inside `graf-report.py`, a script that mails an HTML report
built from Grafana panels. The script takes a list of panel descriptors
`(dashboard,panelId,width,height)` and a list of recipient addresses on its
command line. It builds a multipart/related message around an HTML template,
downloads each panel as a PNG from Grafana's renderer into `/tmp/` and attaches
it as an inline image whose Content-ID is the image's file name. Then it sets
`To` and hands the message to an SMTP relay.

The model has six modules, one file each:

- `wrappers.dfy` (`Wrappers`): `Option` and `Result`, used for the script's error paths.
- `strings.dfy` (`Strings`): the Python string operations the script relies on:
  `str.replace(c, "")`, `str.split(sep)` and `sep.join(...)`. It also holds the
  whitespace class of `str.isspace()` and the regular-expression `\s`, and the
  whitespace skip that `int()` applies around its digits.
- `panel.dfy` (`PanelSpec`): the argument type `panel_type`, with Python's base-10
  `int(str)` written out as a grammar. It accepts surrounding whitespace from
  `int()`'s own set, an optional sign, and digits with single underscores between
  them. There are at most 4300 digits, CPython's default limit.
- `mail.dfy` (`MailAddress`): the argument type `mail_type`. It is a start-anchored
  `re.match` of `[^@^\s]+@[^@^\s]+\.[^@\s]+`. The decision is a scan. It is proved
  equal to the declarative reading "some `L@D.T` is a prefix of the input".
- `naming.dfy` (`Naming`): `create_filename` and the renderer URL built in `download`.
- `envelope.dfy` (`Envelope`): the message and the main loop, in imperative form.
  - `Message` is a class. Its header list and part list are updated in place by
    `Prepare`, `SetHeader` and `Attach`.
  - `TempDir` is a class holding the temporary directory as a map from path to bytes.
  - `Download`, `AttachImg` and `Send` are methods over these classes.
  - `EmbedPanels` is the `for panel in args.panel_list` loop. It is proved against
    the function `EmbedAll`, which states what the loop does panel by panel.
  - The lemmas about `EmbedAll` state the properties of the result: layout,
    clean-up, and the bytes embedded.
  - `Report` is the script's main block.

The renderer's HTTP reply, the template text, the formatted date, the 15 random
bytes and the host name are parameters. The script gets them from the network,
the file system, the clock, `os.urandom` and `socket.getfqdn`.

Behaviour of the script worth noting:

- A malformed panel is rejected with one generic message naming the bracket-free
  text (lines 89-90). That bare `except` replaces the specific messages raised at
  lines 80, 84 and 88, and the unpacking error of line 75.
- Only the panel id, width and height are checked (lines 77-88). The dashboard may be
  empty, hold quotes or hold a `/`. The descriptor `('water-24h-view',6,400,100)`
  of line 25 keeps its quotes in the dashboard when the argument text reaches the
  script with its quotes (a shell strips unescaped ones). Its image is then named
  `img_'water-24h-view'-6.png`, not the `cid:img_water-24h-view-6.png` that the
  template example at line 44 refers to.
- The Content-ID header is the file name in angle brackets, `<img_d-p.png>` (line 197).
- The `Message-ID` holds `str()` of a bytes object (line 151), so it reads
  `<b'<30 hex digits>'@sender>`.
- `msg[name] = value` appends a header line rather than replacing one (lines 148-151, 185).
- A renderer reply other than 200 writes nothing (line 178). The following `open`
  (line 193) then fails, unless a file of that name was left in `/tmp/` earlier.
  In that case the old image is embedded.

## Model

| member | source | states |
|---|---|---|
| `Strings.RemoveAll` | graf-report.py:72-73 | `s.replace(c, "")` leaves no `c`, keeps every other character, and is shorter by the number of `c`s removed |
| `Strings.Split` | graf-report.py:75 | `s.split(sep)` yields one piece more than there are separators, and no piece holds the separator |
| `Strings.JoinOne` | graf-report.py:185 | a single piece joins to itself for any separator; with `JoinConcat` this fixes `sep.join` on every non-empty list, as the pieces with the separator between each two |
| `Strings.JoinConcat` | graf-report.py:185 | `sep.join(parts)` can be cut between any two pieces: the joins of the two halves with the separator between them give the join of the whole list |
| `Strings.JoinSplit` | graf-report.py:75 | joining the pieces of a split with the same separator gives back the string |
| `Strings.SplitJoin` | graf-report.py:75 | splitting a join of separator-free pieces gives back the pieces |
| `Strings.TrimStart` | graf-report.py:78 | the whitespace `int()` skips before the sign: the result is a suffix, everything dropped is in `int()`'s whitespace set (space, `\t` to `\r`, non-ASCII whitespace), and what is left does not start with such whitespace |
| `Strings.TrimEnd` | graf-report.py:78 | the whitespace `int()` skips after the digits: the result is a prefix, everything dropped is in that set, and what is left does not end with such whitespace |
| `Strings.Strip` | graf-report.py:78 | both ends of `int()`'s whitespace skip: the result is no longer than the input, neither starts nor ends with such whitespace, and an input that already does not is kept whole |
| `PanelSpec.Unbracket` | graf-report.py:72-73 | after both `replace` calls no `(` or `)` remains |
| `PanelSpec.IsIntLiteral` | graf-report.py:77-88 | what `int(field)` accepts without raising `ValueError`: surrounding whitespace from `int()`'s set, an optional sign, then ASCII digit groups with single underscores between digits, at most 4300 digits |
| `PanelSpec.IntLiteralChars` | graf-report.py:77-88 | an accepted integer field holds only `int()` whitespace, a sign, digits and underscores |
| `PanelSpec.CheckFields` | graf-report.py:75-88 | the body of the `try`: it succeeds exactly when the text has three commas and the second, third and fourth split pieces are integer literals; a success has the four split pieces as its fields; a failure is the unpacking error exactly when the comma count is not three |
| `PanelSpec.PanelType` | graf-report.py:69-91 | `panel_type` accepts exactly when the `try` body accepts the bracket-free text, so with or without brackets (`a,1,2,3`, `(a,1,2,3`); on success panel id, width and height are integer literals; every failure carries the generic message `PanelError` (line 90) built from the bracket-free text |
| `PanelSpec.PanelTypeRoundTrip` | graf-report.py:72-91 | on success the four returned fields are the unconverted substrings: joined with `,` they rebuild the bracket-free input; none holds a comma or bracket; panelId, width and height are integer literals |
| `PanelSpec.PanelTypeOfTuple` | graf-report.py:69-91 | conversely, any four bracket- and comma-free fields with integer panelId, width and height, written as `(d,p,w,h)`, parse back to exactly those fields; the dashboard is unconstrained |
| `PanelSpec.PanelTypeArity` | graf-report.py:72-75 | a bracket-free input without exactly three commas (so not exactly four fields) is rejected with the generic message |
| `PanelSpec.PanelTypeNotInteger` | graf-report.py:77-88 | four fields with a non-integer panelId, width or height are rejected |
| `PanelSpec.PanelTypeRejection` | graf-report.py:75-90 | every rejection carries the generic "Every panel must be ...: [stripped]" message (`PanelError`, line 90), which differs from the specific message `Raised` gives for what failed inside the `try`: the unpacking error of line 75 or the messages of lines 80, 84 and 88 |
| `PanelSpec.DigitsAreInt` | graf-report.py:78 | a run of 1 to 4300 decimal digits is accepted by `int()` |
| `PanelSpec.SignedDigitsAreInt` | graf-report.py:78 | a minus sign followed by 1 to 4300 decimal digits is accepted by `int()` |
| `MailAddress.NameSpan` | graf-report.py:65 | the scan for `[^@^\s]+` stops at the first character outside the class, or at the end |
| `MailAddress.Matches` | graf-report.py:65 | the decision `re.match` makes; a match needs an `@` and at least five characters |
| `MailAddress.MailType` | graf-report.py:64-67 | `mail_type`: an accepted input is returned unchanged and holds an `@`; a rejected one gets "The mail is not a valid email" |
| `MailAddress.MailTypeSpec` | graf-report.py:64-67 | `mail_type` accepts exactly the inputs that begin with `L@D.T`: L and D are non-empty runs of `[^@^\s]`, T a non-empty run of `[^@\s]`. On acceptance the input is returned unchanged; on rejection the message is "The mail is not a valid email" |
| `MailAddress.MailTypeIgnoresSuffix` | graf-report.py:65 | only the start of the input is checked: an accepted address stays accepted, unchanged, whatever follows it |
| `MailAddress.MailTypeNeedsAt` | graf-report.py:65-66 | an input without `@` is rejected |
| `MailAddress.MailTypeNeedsDot` | graf-report.py:65-66 | an accepted input has a dot after its first `@`; without one it is rejected |
| `Naming.CreateFilename` | graf-report.py:166-167 | the file name starts with `img_`, ends with `.png`, and is 9 characters longer than dashboard and panel id together |
| `Naming.FilenameInjective` | graf-report.py:166-167 | when neither panel id holds `-`, equal file names mean equal dashboard and equal panel id |
| `Naming.FilenameCollision` | graf-report.py:166-167 | `(d-, p)` and `(d, -p)` share one file name, and for `p` of 1 to 4300 digits `-p` is accepted by `int()`, so two accepted panels can share a temporary file and a Content-ID |
| `Naming.RenderTarget` | graf-report.py:170 | the path of the request: it starts with the server, ends with `/` and the dashboard, and is 16 characters longer than server, panel token and dashboard together |
| `Naming.RenderUrl` | graf-report.py:169-175 | the render URL starts with the server, ends with `&theme=light`, and is 52 characters longer than its six inputs together |
| `Naming.RenderUrlShape` | graf-report.py:170-175 | the URL is `server/render/d-solo/<panel token>/<dashboard>`, a `?`, then `panelId=`, `width=`, `height=` and `theme=light` joined by `&` in that order |
| `Naming.RenderUrlQuery` | graf-report.py:170-175 | if the path holds no `?` and the fields hold no `&`, the URL up to its first `?` is the path, and the query splits at `&` back into the four parameters with the fields unchanged |
| `Naming.RenderUrlOfPanel` | graf-report.py:170-175 | for a parsed panel the fields never hold `&`, so the URL reads back that way whenever the path holds no `?` |
| `Envelope.Hex` | graf-report.py:151 | `b2a_hex` gives two lower-case hexadecimal digits per byte |
| `Envelope.HexDecodes` | graf-report.py:151 | each byte is read back from its two hex digits, high digit first |
| `Envelope.MessageId` | graf-report.py:151 | the Message-ID is `<b'`, then exactly `b2a_hex` of the random bytes (two hex digits per byte), then `'@`, the sender and `>` |
| `Envelope.MessageIdInjective` | graf-report.py:151 | two random draws give the same Message-ID only when they are the same bytes, so a fresh draw gives a fresh id |
| `Envelope.PreparedHeaders` | graf-report.py:148-151 | four headers in the order Subject, From, Date, Message-ID; Subject and Date carry their arguments, From is `<` + sender + `>`, Message-ID the id above |
| `Envelope.Message.Prepare` | graf-report.py:146-164 | from 15 random bytes the new message gets the headers Subject, From `<sender>`, Date and Message-ID `<b'hex'@sender>` in that order, one alternative part holding the template unchanged, and the fixed preamble |
| `Envelope.Message.SetHeader` | graf-report.py:148-151 | setting a header appends one header line and leaves the parts alone |
| `Envelope.Message.Attach` | graf-report.py:160-162 | attaching appends one part last and leaves the headers alone |
| `Envelope.TempDir.Write` | graf-report.py:179-181 | writing the downloaded image maps its path to the bytes, and changes nothing else |
| `Envelope.TempDir.Read` | graf-report.py:193-195 | reading gives the file's bytes, or the missing-file fault when there is no such file |
| `Envelope.TempDir.Remove` | graf-report.py:225 | removing drops exactly that path |
| `Envelope.Download` | graf-report.py:169-182 | the request goes to the render URL with `Bearer <token>`; a raising request ends the run with nothing written; otherwise the directory becomes `Fetched`: the image is written only on status 200 and any other status writes nothing |
| `Envelope.AttachImg` | graf-report.py:192-199 | when the file exists, one `ImagePart` is appended: the file's bytes, Content-ID `<name>` and disposition `attachment;filename="name"`; when it does not exist, the missing-file fault and no change |
| `Envelope.EmbedPanel` | graf-report.py:220-225 | one turn of the loop faults exactly when the request raised or no file of the panel's name exists after the download; otherwise it appends one image part named `<img_d-p.png>` after the parts already there and removes exactly that panel's file |
| `Envelope.EmbedAll` | graf-report.py:219-225 | the loop over all panels, stopping at the first fault; a completed loop adds exactly one part per panel and keeps the parts already there |
| `Envelope.EmbedPanels` | graf-report.py:219-225 | the loop ends exactly as `EmbedAll` says. On success the message parts and the files are `EmbedAll`'s result. On a fault, panel `done` is the one that faulted: the state is the one after the panels before it, those panels ran without fault, and the headers are untouched |
| `Envelope.FaultPersists` | graf-report.py:219-225 | once a prefix of the panel list faults, the whole loop ends with that fault |
| `Envelope.EmbedAllPart` | graf-report.py:219-225 | in a completed loop, the part added for panel `i` is an image named `<img_d-p.png>` after that panel |
| `Envelope.EmbedAllLayout` | graf-report.py:219-225 | a completed loop adds one image part per panel after the existing parts, in panel order, each with Content-ID `<img_dashboard-panelId.png>` |
| `Envelope.EmbedAllCleansUp` | graf-report.py:219-225 | a completed loop leaves none of the panels' temporary files and every other file untouched |
| `Envelope.EmbedAllRendered` | graf-report.py:177-199 | when every panel renders with status 200 the loop completes, and the i-th new part carries exactly the i-th rendered bytes |
| `Envelope.EmbedPanelOutcome` | graf-report.py:177-199 | one panel ends the run iff the request raised, or the reply was not 200 and no file of that name exists; a left-over file of that name is embedded instead |
| `Envelope.ToValue` | graf-report.py:185 | the `To` value `", ".join(mail_list)` begins with the first recipient, and is that recipient alone when there is one |
| `Envelope.Send` | graf-report.py:184-190 | `To` is appended as the recipients joined by `", "`, and the transmission goes from the sender to exactly the listed recipients with the message as it then stands |
| `Envelope.ToValueRecipients` | graf-report.py:185 | when no recipient holds a comma, splitting the `To` value at commas gives the first recipient, then each further recipient behind one space |
| `Envelope.ResolveSender` | graf-report.py:211-214 | the sender is the `--mail_from` address when one was given and is non-empty, and the host name otherwise |
| `Envelope.ResolveValidatedSender` | graf-report.py:211-214 | a sender address that passed `mail_type` is non-empty, so it is used rather than the host name |
| `Envelope.Report` | graf-report.py:209-228 | a fault in the panel loop ends the run with nothing sent, and the directory is what the panels before the faulting one left: their files removed, nothing written for the faulting one. Otherwise one transmission is made: the prepared headers plus `To`, and the loop's parts, with the directory as `EmbedAll` leaves it (by `EmbedAllCleansUp`, every panel file removed) |
| `Envelope.RenderedEnvelope` | graf-report.py:216-225 | when all panels render, the message holds 1 + N parts: the template's alternative part first, then the N images in list order with their bytes and Content-IDs. No panel file is left behind |

## Left out

- The HTTP request itself, its streaming and `decode_content` handling (lines 177-182). The reply is a parameter: `Reply(status, body)` or `Unreachable` for a request that raises.
- TempDir.Write: writing the image always succeeds in the model. In the script, `open(TEMP + img_file, 'wb')` (line 179) raises when the path cannot be written. A `/` in the dashboard names a directory under `/tmp/` that usually does not exist. Other causes are a full disk or missing permissions. That raise ends the run. `Download` and `Fault` do not cover it, because whether a path is writable depends on the file system, not on the arguments.
- The SMTP dialogue: connect on port 25, login, `sendmail`, quit (lines 186-190). `Send` returns the transmission it would make. Relay failures are not modelled.
- Reading the template file (lines 201-206). The template text is a parameter, so an unreadable template is not modelled.
- Clock, randomness and host lookup (lines 150-151 and 214): `formatdate()`, `os.urandom(15)` and `socket.getfqdn()` are parameters.
- MIME serialisation (`as_string`), the base64 transfer encoding of `MIMEImage`, and the charset handling of `MIMEText`. A part is modelled by its payload and its two headers.
- The headers the email library sets by itself: the Content-Type and MIME-Version of `MIMEMultipart('related')` (line 147) and the Content-Type, MIME-Version and Content-Transfer-Encoding of each `MIMEImage` (line 194). The model's header list holds only the headers the script sets; the message the script transmits also carries these library headers, ahead of `Subject`.
- Argument parsing (lines 93-144). This includes `nargs='+'`, required flags and argparse's wording of errors. Each descriptor and address is checked by `PanelType` or `MailType` on its own.
- The `print` calls (lines 152 and 176) and `del r`.
- Python header names are case-insensitive. The script never relies on that, so headers are compared by exact name.
- Arguments are strings of Unicode scalar values. Python decodes command-line bytes that are not valid UTF-8 to lone surrogates (`surrogateescape`), which a Dafny `char` cannot hold, so such arguments are not modelled.
- IsIntLiteral: accepts ASCII decimal digits only. Python's `int()` also accepts other Unicode decimal digits.
- IsIntLiteral: the 4300-digit bound is the default of CPython 3.11 and later, and of the 2022 security releases of 3.7 to 3.10. Older interpreters have no bound. A bound changed through `PYTHONINTMAXSTRDIGITS`, `-X int_max_str_digits` or `sys.set_int_max_str_digits` is not modelled.
- A failure of `os.remove` after a successful read cannot happen in this single-process model, so `EmbedPanels` ignores the flag `TempDir.Remove` returns.
