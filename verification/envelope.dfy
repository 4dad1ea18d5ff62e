/**
 * The message graf-report.py assembles and sends: `prepare` builds the
 * multipart/related root with one multipart/alternative part holding the HTML
 * template, the main loop downloads each panel into a temporary file and
 * attaches it as an inline image (`download`, `attach_img`, `os.remove`), and
 * `send` sets the `To` header and hands the message to the relay.
 *
 * The MIME tree is abstracted as a list of headers and a list of parts; the
 * temporary directory as a map from path to file bytes; the renderer's HTTP
 * reply, the clock, the random bytes and the host name are parameters.
 */
module Envelope {
  import opened Wrappers
  import opened Strings
  import opened Naming
  import MailAddress
  import PanelSpec

  newtype byte = b: int | 0 <= b < 256

  /** One header line, in the order it was set. */
  datatype Header = Header(name: string, value: string)

  /** A part of the multipart/related root. */
  datatype Part =
    | Alternative(html: string)   // multipart/alternative holding one text/html part
    | Image(payload: seq<byte>, contentId: string, disposition: string)   // image/png

  /** The directory the panel images are written to and read from. */
  const Temp := "/tmp/"

  const Preamble := "This is a multi-part message in MIME format."

  predicate IsHexDigit(c: char)
  {
    '0' <= c <= '9' || 'a' <= c <= 'f'
  }

  function HexDigit(n: int): (c: char)
    requires 0 <= n < 16
    ensures IsHexDigit(c) && HexValue(c) == n
  {
    if n < 10 then '0' + n as char else 'a' + (n - 10) as char
  }

  function HexValue(c: char): int
  {
    if '0' <= c <= '9' then c as int - '0' as int else c as int - 'a' as int + 10
  }

  /** `binascii.b2a_hex`: two lower-case hexadecimal digits per byte. */
  function Hex(bytes: seq<byte>): (h: string)
    ensures |h| == 2 * |bytes|
    ensures forall i :: 0 <= i < |h| ==> IsHexDigit(h[i])
  {
    if bytes == [] then ""
    else
      var b := bytes[0] as int;
      [HexDigit(b / 16), HexDigit(b % 16)] + Hex(bytes[1..])
  }

  /** Each byte can be read back from its two digits, high digit first. */
  lemma {:induction false} HexDecodes(bytes: seq<byte>, i: nat)
    requires i < |bytes|
    ensures HexValue(Hex(bytes)[2 * i]) * 16 + HexValue(Hex(bytes)[2 * i + 1]) == bytes[i] as int
  {
    if i > 0 {
      HexDecodes(bytes[1..], i - 1);
      assert Hex(bytes)[2 * i] == Hex(bytes[1..])[2 * (i - 1)];
      assert Hex(bytes)[2 * i + 1] == Hex(bytes[1..])[2 * (i - 1) + 1];
    }
  }

  /** The `Message-ID` of `prepare`: `str()` of the hex bytes object keeps its `b'...'` wrapper. */
  function MessageId(random: seq<byte>, fromAddr: string): (id: string)
    ensures |id| == 2 * |random| + |fromAddr| + 6
    ensures id[..3] == "<b'" && forall i :: 3 <= i < 3 + 2 * |random| ==> IsHexDigit(id[i])
    ensures id[3 + 2 * |random|..] == "'@" + fromAddr + ">"
    ensures id[3..3 + 2 * |random|] == Hex(random)
  {
    "<" + "b'" + Hex(random) + "'" + "@" + fromAddr + ">"
  }

  /** Two random draws give the same Message-ID only when they are the same bytes. */
  lemma MessageIdInjective(r1: seq<byte>, r2: seq<byte>, fromAddr: string)
    requires MessageId(r1, fromAddr) == MessageId(r2, fromAddr)
    ensures r1 == r2
  {
    assert Hex(r1) == Hex(r2);
    forall i | 0 <= i < |r1|
      ensures r1[i] == r2[i]
    {
      HexDecodes(r1, i);
      HexDecodes(r2, i);
    }
  }

  /** The headers `prepare` sets, in order. */
  function PreparedHeaders(fromAddr: string, subject: string, date: string, random: seq<byte>): (hs: seq<Header>)
    ensures |hs| == 4
    ensures hs[0].name == "Subject" && hs[1].name == "From" && hs[2].name == "Date" && hs[3].name == "Message-ID"
    ensures hs[0].value == subject && hs[2].value == date
    ensures |hs[1].value| == |fromAddr| + 2 && hs[1].value[1..|fromAddr| + 1] == fromAddr
    ensures hs[1].value[0] == '<' && hs[1].value[|fromAddr| + 1] == '>'
    ensures hs[3].value == MessageId(random, fromAddr)
  {
    [Header("Subject", subject), Header("From", "<" + fromAddr + ">"),
     Header("Date", date), Header("Message-ID", MessageId(random, fromAddr))]
  }

  /** The multipart/related root message. */
  class Message {
    var headers: seq<Header>
    var parts: seq<Part>
    const preamble: string

    /** `prepare(from_addr, subject_line, template_file)`, given the template's text,
        the formatted date and the 15 random bytes. */
    constructor Prepare(fromAddr: string, subject: string, template: string, date: string, random: seq<byte>)
      requires |random| == 15
      ensures headers == PreparedHeaders(fromAddr, subject, date, random)
      ensures parts == [Alternative(template)]
      ensures preamble == Preamble
    {
      headers := [];
      parts := [];
      preamble := Preamble;
      new;
      SetHeader("Subject", subject);
      SetHeader("From", "<" + fromAddr + ">");
      SetHeader("Date", date);
      SetHeader("Message-ID", MessageId(random, fromAddr));
      Attach(Alternative(template));
    }

    /** `msg[name] = value`: a further header line; earlier ones with that name stay. */
    method SetHeader(name: string, value: string)
      modifies this
      ensures headers == old(headers) + [Header(name, value)]
      ensures parts == old(parts)
    {
      headers := headers + [Header(name, value)];
    }

    /** `msg.attach(part)`: the part goes last. */
    method Attach(part: Part)
      modifies this
      ensures parts == old(parts) + [part]
      ensures headers == old(headers)
    {
      parts := parts + [part];
    }
  }

  /** The temporary directory's contents, by full path. */
  class TempDir {
    var files: map<string, seq<byte>>

    constructor (files: map<string, seq<byte>>)
      ensures this.files == files
    {
      this.files := files;
    }

    /** `open(path, 'wb')` followed by writing all of `data`. */
    method Write(path: string, data: seq<byte>)
      modifies this
      ensures files == old(files)[path := data]
    {
      files := files[path := data];
    }

    /** `open(path, 'rb').read()`, or the missing-file error. */
    method Read(path: string) returns (data: Result<seq<byte>, Fault>)
      ensures path in files ==> data == Success(files[path])
      ensures path !in files ==> data == Failure(MissingFile(path))
    {
      if path in files {
        data := Success(files[path]);
      } else {
        data := Failure(MissingFile(path));
      }
    }

    /** `os.remove(path)`; reports whether the file was there. */
    method Remove(path: string) returns (existed: bool)
      modifies this
      ensures existed == (path in old(files))
      ensures files == old(files) - {path}
    {
      existed := path in files;
      files := files - {path};
    }
  }

  /** The reply of the rendering service, or a request that raised. */
  datatype Response = Reply(status: int, body: seq<byte>) | Unreachable

  /** The request `download` makes. */
  datatype Request = Request(url: string, authorization: string)

  /** Why a run stops before sending, among the causes this model covers. */
  datatype Fault = Transport(url: string) | MissingFile(path: string)

  /** The renderer settings shared by every panel: server, API token and static panel path. */
  datatype Renderer = Renderer(server: string, apiToken: string, panelToken: string)

  /** The file system after `download` wrote (or did not write) the image. */
  function Fetched(files: map<string, seq<byte>>, path: string, response: Response): map<string, seq<byte>>
  {
    if response.Reply? && response.status == 200 then files[path := response.body] else files
  }

  /** The inline image part `attach_img` builds. */
  function ImagePart(payload: seq<byte>, name: string): Part
  {
    Image(payload, "<" + name + ">", "attachment;filename=\"" + name + "\"")
  }

  /** `download(...)`: the request, and the image written only on a 200 reply. */
  method Download(dir: TempDir, r: Renderer, p: PanelSpec.Panel, imgFile: string, response: Response)
    returns (request: Request, outcome: Result<(), Fault>)
    modifies dir
    ensures request == Request(RenderUrl(r.server, r.panelToken, p.dashboard, p.panelId, p.width, p.height),
                               "Bearer " + r.apiToken)
    ensures outcome == if response.Unreachable? then Failure(Transport(request.url)) else Success(())
    ensures dir.files == if response.Unreachable? then old(dir.files) else Fetched(old(dir.files), Temp + imgFile, response)
  {
    var url := RenderUrl(r.server, r.panelToken, p.dashboard, p.panelId, p.width, p.height);
    request := Request(url, "Bearer " + r.apiToken);
    if response.Unreachable? {
      outcome := Failure(Transport(url));
      return;
    }
    outcome := Success(());
    if response.status == 200 {
      dir.Write(Temp + imgFile, response.body);
    }
  }

  /** `attach_img(msgRoot, img_name)`: the file's bytes as an inline image part. */
  method AttachImg(msg: Message, dir: TempDir, imgName: string) returns (outcome: Result<(), Fault>)
    modifies msg
    ensures msg.headers == old(msg.headers)
    ensures Temp + imgName in dir.files ==>
              outcome == Success(()) && msg.parts == old(msg.parts) + [ImagePart(dir.files[Temp + imgName], imgName)]
    ensures Temp + imgName !in dir.files ==>
              outcome == Failure(MissingFile(Temp + imgName)) && msg.parts == old(msg.parts)
  {
    var data := dir.Read(Temp + imgName);
    if data.Failure? {
      outcome := Failure(data.error);
      return;
    }
    msg.Attach(ImagePart(data.value, imgName));
    outcome := Success(());
  }

  /** The parts of the message and the temporary files, between two panels. */
  datatype Stage = Stage(parts: seq<Part>, files: map<string, seq<byte>>)

  function PanelPath(p: PanelSpec.Panel): string
  {
    Temp + CreateFilename(p.dashboard, p.panelId)
  }

  /** One turn of the main loop: download, attach, remove. */
  function EmbedPanel(st: Stage, r: Renderer, p: PanelSpec.Panel, response: Response): (res: Result<Stage, Fault>)
    ensures res.Failure? <==> response.Unreachable? || PanelPath(p) !in Fetched(st.files, PanelPath(p), response)
    ensures res.Success? ==>
              && |res.value.parts| == |st.parts| + 1
              && res.value.parts[..|st.parts|] == st.parts
              && res.value.parts[|st.parts|].Image?
              && res.value.parts[|st.parts|].contentId == "<" + CreateFilename(p.dashboard, p.panelId) + ">"
    ensures res.Success? ==> res.value.files == st.files - {PanelPath(p)}
  {
    var name := CreateFilename(p.dashboard, p.panelId);
    var path := Temp + name;
    if response.Unreachable? then
      Failure(Transport(RenderUrl(r.server, r.panelToken, p.dashboard, p.panelId, p.width, p.height)))
    else
      var files := Fetched(st.files, path, response);
      if path !in files then Failure(MissingFile(path))
      else Success(Stage(st.parts + [ImagePart(files[path], name)], files - {path}))
  }

  /** The whole main loop over the panels and the replies they get; the first fault ends it. */
  function EmbedAll(st: Stage, r: Renderer, panels: seq<PanelSpec.Panel>, responses: seq<Response>): (res: Result<Stage, Fault>)
    requires |panels| == |responses|
    ensures res.Success? ==> |res.value.parts| == |st.parts| + |panels| && res.value.parts[..|st.parts|] == st.parts
    decreases |panels|
  {
    if panels == [] then Success(st)
    else
      match EmbedAll(st, r, panels[..|panels| - 1], responses[..|responses| - 1])
      case Failure(f) => Failure(f)
      case Success(s) =>
        var next := EmbedPanel(s, r, panels[|panels| - 1], responses[|responses| - 1]);
        assert next.Success? ==> next.value.parts[..|st.parts|] == next.value.parts[..|s.parts|][..|st.parts|];
        next
  }

  /** Once a prefix of the loop faults, the whole loop ends with that fault. */
  lemma {:induction false} FaultPersists(st: Stage, r: Renderer, panels: seq<PanelSpec.Panel>, responses: seq<Response>, k: nat)
    requires |panels| == |responses| && k <= |panels|
    requires EmbedAll(st, r, panels[..k], responses[..k]).Failure?
    ensures EmbedAll(st, r, panels, responses) == EmbedAll(st, r, panels[..k], responses[..k])
    decreases |panels| - k
  {
    if k < |panels| {
      assert panels[..k + 1][..k] == panels[..k];
      assert responses[..k + 1][..k] == responses[..k];
      FaultPersistsStep(st, r, panels[..k + 1], responses[..k + 1]);
      FaultPersists(st, r, panels, responses, k + 1);
    } else {
      assert panels[..k] == panels;
      assert responses[..k] == responses;
    }
  }

  lemma FaultPersistsStep(st: Stage, r: Renderer, panels: seq<PanelSpec.Panel>, responses: seq<Response>)
    requires |panels| == |responses| && |panels| > 0
    requires EmbedAll(st, r, panels[..|panels| - 1], responses[..|responses| - 1]).Failure?
    ensures EmbedAll(st, r, panels, responses) == EmbedAll(st, r, panels[..|panels| - 1], responses[..|responses| - 1])
  {
  }

  /** The main `for panel in args.panel_list` loop of the script. */
  method EmbedPanels(msg: Message, dir: TempDir, r: Renderer, panels: seq<PanelSpec.Panel>, responses: seq<Response>)
    returns (outcome: Result<(), Fault>, done: nat)
    requires |panels| == |responses|
    modifies msg, dir
    ensures msg.headers == old(msg.headers)
    ensures var all := EmbedAll(Stage(old(msg.parts), old(dir.files)), r, panels, responses);
            && (outcome.Success? <==> all.Success?)
            && (all.Success? ==> done == |panels| && all.value == Stage(msg.parts, dir.files))
            && (all.Failure? ==> outcome.error == all.error)
    ensures outcome.Failure? ==>
              && done < |panels|
              && EmbedAll(Stage(old(msg.parts), old(dir.files)), r, panels[..done], responses[..done])
                   == Success(Stage(msg.parts, dir.files))
              && EmbedAll(Stage(old(msg.parts), old(dir.files)), r, panels[..done + 1], responses[..done + 1]).Failure?
  {
    ghost var st := Stage(msg.parts, dir.files);
    var i := 0;
    while i < |panels|
      invariant 0 <= i <= |panels|
      invariant msg.headers == old(msg.headers)
      invariant EmbedAll(st, r, panels[..i], responses[..i]) == Success(Stage(msg.parts, dir.files))
    {
      var p := panels[i];
      var imgName := CreateFilename(p.dashboard, p.panelId);
      ghost var before := Stage(msg.parts, dir.files);
      assert panels[..i + 1][..i] == panels[..i];
      assert responses[..i + 1][..i] == responses[..i];
      assert EmbedAll(st, r, panels[..i + 1], responses[..i + 1]) == EmbedPanel(before, r, p, responses[i]);
      var request, fetched := Download(dir, r, p, imgName, responses[i]);
      if fetched.Failure? {
        FaultPersists(st, r, panels, responses, i + 1);
        return fetched, i;
      }
      var attached := AttachImg(msg, dir, imgName);
      if attached.Failure? {
        FaultPersists(st, r, panels, responses, i + 1);
        return attached, i;
      }
      var _ := dir.Remove(Temp + imgName);
      i := i + 1;
    }
    assert panels[..i] == panels;
    assert responses[..i] == responses;
    return Success(()), i;
  }

  /** The temporary paths of a list of panels. */
  function PanelPaths(panels: seq<PanelSpec.Panel>): set<string>
  {
    set i | 0 <= i < |panels| :: PanelPath(panels[i])
  }

  /** An image part named by the panel's file name. */
  predicate NamesPanel(part: Part, p: PanelSpec.Panel)
  {
    part.Image? && part.contentId == "<" + CreateFilename(p.dashboard, p.panelId) + ">"
  }

  /**
   * What a completed loop leaves in the message: one image part per panel after
   * the parts already there, in panel order, each named by its panel's file name.
   */
  lemma EmbedAllLayout(st: Stage, r: Renderer, panels: seq<PanelSpec.Panel>, responses: seq<Response>)
    requires |panels| == |responses|
    requires EmbedAll(st, r, panels, responses).Success?
    ensures var s := EmbedAll(st, r, panels, responses).value;
            && |s.parts| == |st.parts| + |panels|
            && s.parts[..|st.parts|] == st.parts
            && forall i :: 0 <= i < |panels| ==> NamesPanel(s.parts[|st.parts| + i], panels[i])
  {
    var s := EmbedAll(st, r, panels, responses).value;
    forall i | 0 <= i < |panels|
      ensures NamesPanel(s.parts[|st.parts| + i], panels[i])
    {
      EmbedAllPart(st, r, panels, responses, i);
    }
  }

  /** The part a completed loop adds for panel `i` is an image named by that panel's file name. */
  lemma {:induction false} EmbedAllPart(st: Stage, r: Renderer, panels: seq<PanelSpec.Panel>, responses: seq<Response>, i: nat)
    requires |panels| == |responses| && i < |panels|
    requires EmbedAll(st, r, panels, responses).Success?
    ensures NamesPanel(EmbedAll(st, r, panels, responses).value.parts[|st.parts| + i], panels[i])
    decreases |panels|
  {
    var n := |panels|;
    var s' := EmbedAll(st, r, panels[..n - 1], responses[..n - 1]).value;
    var s := EmbedAll(st, r, panels, responses).value;
    assert EmbedAll(st, r, panels, responses) == EmbedPanel(s', r, panels[n - 1], responses[n - 1]);
    if i < n - 1 {
      EmbedAllPart(st, r, panels[..n - 1], responses[..n - 1], i);
      assert panels[..n - 1][i] == panels[i];
      assert s.parts[|st.parts| + i] == s.parts[..|s'.parts|][|st.parts| + i];
    }
  }

  /** What a completed loop leaves in the temporary directory: none of the panels' files, and every other file untouched. */
  lemma {:induction false} EmbedAllCleansUp(st: Stage, r: Renderer, panels: seq<PanelSpec.Panel>, responses: seq<Response>)
    requires |panels| == |responses|
    requires EmbedAll(st, r, panels, responses).Success?
    ensures EmbedAll(st, r, panels, responses).value.files == st.files - PanelPaths(panels)
    decreases |panels|
  {
    if panels != [] {
      var n := |panels|;
      var init := panels[..n - 1];
      EmbedAllCleansUp(st, r, init, responses[..n - 1]);
      var s' := EmbedAll(st, r, init, responses[..n - 1]).value;
      assert EmbedAll(st, r, panels, responses) == EmbedPanel(s', r, panels[n - 1], responses[n - 1]);
      PanelPathsLast(panels);
    }
  }

  lemma PanelPathsLast(panels: seq<PanelSpec.Panel>)
    requires panels != []
    ensures PanelPaths(panels) == PanelPaths(panels[..|panels| - 1]) + {PanelPath(panels[|panels| - 1])}
  {
    var init := panels[..|panels| - 1];
    assert forall i :: 0 <= i < |init| ==> panels[i] == init[i];
  }

  /** Every panel rendered with status 200 gives a completed loop whose new parts carry exactly the rendered bytes. */
  predicate AllRendered(responses: seq<Response>)
  {
    forall i :: 0 <= i < |responses| ==> responses[i].Reply? && responses[i].status == 200
  }

  lemma {:induction false} EmbedAllRendered(st: Stage, r: Renderer, panels: seq<PanelSpec.Panel>, responses: seq<Response>)
    requires |panels| == |responses|
    requires AllRendered(responses)
    ensures EmbedAll(st, r, panels, responses).Success?
    ensures var s := EmbedAll(st, r, panels, responses).value;
            && |s.parts| == |st.parts| + |panels|
            && s.parts[..|st.parts|] == st.parts
            && forall i :: 0 <= i < |panels| ==>
                 s.parts[|st.parts| + i] == ImagePart(responses[i].body, CreateFilename(panels[i].dashboard, panels[i].panelId))
    decreases |panels|
  {
    if panels != [] {
      var n := |panels|;
      assert AllRendered(responses[..n - 1]) by {
        assert forall i :: 0 <= i < n - 1 ==> responses[..n - 1][i] == responses[i];
      }
      EmbedAllRendered(st, r, panels[..n - 1], responses[..n - 1]);
      var s' := EmbedAll(st, r, panels[..n - 1], responses[..n - 1]).value;
      var s := EmbedAll(st, r, panels, responses).value;
      assert s.parts == s'.parts + [ImagePart(responses[n - 1].body, CreateFilename(panels[n - 1].dashboard, panels[n - 1].panelId))];
      assert forall i :: |st.parts| <= i < |st.parts| + n - 1 ==> s.parts[i] == s'.parts[i];
    }
  }

  /**
   * One panel's outcome: the request raising ends the run; otherwise the run ends
   * only if no file is found, which happens when the reply is not 200 and no file
   * of that name is left over. A left-over file is embedded in place of the panel.
   */
  lemma EmbedPanelOutcome(st: Stage, r: Renderer, p: PanelSpec.Panel, response: Response)
    ensures EmbedPanel(st, r, p, response).Failure? <==>
              response.Unreachable? || (response.status != 200 && PanelPath(p) !in st.files)
    ensures response.Reply? && response.status != 200 && PanelPath(p) in st.files ==>
              EmbedPanel(st, r, p, response).Success? &&
              EmbedPanel(st, r, p, response).value.parts
                == st.parts + [ImagePart(st.files[PanelPath(p)], CreateFilename(p.dashboard, p.panelId))]
  {
  }

  /** What `send` hands to `smtplib`: envelope sender, recipients, and the message as it stands. */
  datatype Transmission = Transmission(sender: string, recipients: seq<string>, headers: seq<Header>, parts: seq<Part>)

  /** The value of the `To` header: the recipients joined with `", "`. */
  function ToValue(mailList: seq<string>): (r: string)
    ensures |mailList| > 0 ==> mailList[0] <= r
    ensures |mailList| == 1 ==> r == mailList[0]
  {
    Join(mailList, ", ")
  }

  /** `send(...)`: sets `To`, then transmits from the sender to every listed recipient. */
  method Send(msg: Message, mailList: seq<string>, sender: string) returns (t: Transmission)
    modifies msg
    ensures msg.headers == old(msg.headers) + [Header("To", ToValue(mailList))]
    ensures msg.parts == old(msg.parts)
    ensures t == Transmission(sender, mailList, msg.headers, msg.parts)
  {
    msg.SetHeader("To", ToValue(mailList));
    t := Transmission(sender, mailList, msg.headers, msg.parts);
  }

  /** Each recipient after the first, as it appears after a comma in the `To` header. */
  function Spaced(mailList: seq<string>): (r: seq<string>)
    ensures |r| == |mailList|
    ensures forall i :: 0 <= i < |r| ==> r[i] == " " + mailList[i]
  {
    if mailList == [] then [] else [" " + mailList[0]] + Spaced(mailList[1..])
  }

  lemma {:induction false} ToValueAsCommaJoin(mailList: seq<string>)
    requires |mailList| > 0
    ensures ToValue(mailList) == Join([mailList[0]] + Spaced(mailList[1..]), ",")
    decreases |mailList|
  {
    if |mailList| > 1 {
      ToValueAsCommaJoin(mailList[1..]);
      var rest := Spaced(mailList[1..]);
      assert rest == [" " + mailList[1]] + Spaced(mailList[2..]);
      assert mailList[1..][1..] == mailList[2..];
      assert ([mailList[0]] + rest)[1..] == rest;
      assert Join([mailList[0]] + rest, ",") == mailList[0] + "," + Join(rest, ",");
      assert Join(rest, ",") == " " + ToValue(mailList[1..]);
    }
  }

  /**
   * The `To` header reads back as the recipient list: split at commas, it gives the
   * first recipient and then each further one behind a single space, provided no
   * recipient holds a comma. An accepted address may hold one after its
   * `local@domain.tld` prefix, so the proviso is needed.
   */
  lemma ToValueRecipients(mailList: seq<string>)
    requires |mailList| > 0
    requires forall i :: 0 <= i < |mailList| ==> ',' !in mailList[i]
    ensures Split(ToValue(mailList), ',') == [mailList[0]] + Spaced(mailList[1..])
  {
    ToValueAsCommaJoin(mailList);
    var parts := [mailList[0]] + Spaced(mailList[1..]);
    forall i | 0 <= i < |parts|
      ensures ',' !in parts[i]
    {
      if i > 0 {
        assert parts[i] == " " + mailList[i];
        assert forall x :: x in " " + mailList[i] ==> x == ' ' || x in mailList[i];
      }
    }
    SplitJoin(parts, ',');
  }

  /** `if args.mail_from: ... else: socket.getfqdn()`. */
  function ResolveSender(mailFrom: Option<string>, fqdn: string): (sender: string)
    ensures mailFrom.Some? && mailFrom.value != "" ==> sender == mailFrom.value
    ensures mailFrom.None? || mailFrom.value == "" ==> sender == fqdn
  {
    if mailFrom.Some? && mailFrom.value != "" then mailFrom.value else fqdn
  }

  /** A sender address that passed `mail_type` is never empty, so it is the one used. */
  lemma ResolveValidatedSender(a: string, fqdn: string)
    requires MailAddress.MailType(a).Success?
    ensures ResolveSender(Some(a), fqdn) == a
  {
  }

  /**
   * A loop that faults at panel `k`: the panels before it ran, `k` itself faulted, and
   * the directory holds what the panels before it left, their files removed.
   */
  predicate FaultsAt(st: Stage, r: Renderer, panels: seq<PanelSpec.Panel>, responses: seq<Response>,
                     k: nat, files: map<string, seq<byte>>)
    requires |panels| == |responses|
  {
    && k < |panels|
    && EmbedAll(st, r, panels[..k], responses[..k]).Success?
    && EmbedAll(st, r, panels[..k + 1], responses[..k + 1]).Failure?
    && files == EmbedAll(st, r, panels[..k], responses[..k]).value.files
    && files == st.files - PanelPaths(panels[..k])
  }

  /** The directory a faulting loop leaves behind, for some faulting panel. */
  predicate FaultLeaves(st: Stage, r: Renderer, panels: seq<PanelSpec.Panel>, responses: seq<Response>,
                        files: map<string, seq<byte>>)
    requires |panels| == |responses|
  {
    exists k: nat | k < |panels| :: FaultsAt(st, r, panels, responses, k, files)
  }

  /**
   * The script's main block, from the parsed arguments to the hand-over to the
   * relay: prepare, embed every panel, then send. A fault ends the run before
   * anything is sent.
   */
  method Report(mailFrom: Option<string>, fqdn: string, subject: string, template: string, date: string,
                random: seq<byte>, mailList: seq<string>, r: Renderer,
                panels: seq<PanelSpec.Panel>, responses: seq<Response>, dir: TempDir)
    returns (sent: Result<Transmission, Fault>)
    requires |random| == 15
    requires |panels| == |responses|
    modifies dir
    ensures var sender := ResolveSender(mailFrom, fqdn);
            var all := EmbedAll(Stage([Alternative(template)], old(dir.files)), r, panels, responses);
            && (all.Failure? ==> sent == Failure(all.error))
            && (all.Failure? ==> FaultLeaves(Stage([Alternative(template)], old(dir.files)), r, panels, responses, dir.files))
            && (all.Success? ==>
                  && dir.files == all.value.files
                  && sent == Success(Transmission(sender, mailList,
                                       PreparedHeaders(sender, subject, date, random) + [Header("To", ToValue(mailList))],
                                       all.value.parts)))
  {
    var sender := ResolveSender(mailFrom, fqdn);
    var msg := new Message.Prepare(sender, subject, template, date, random);
    ghost var st0 := Stage([Alternative(template)], old(dir.files));
    var embedded, done := EmbedPanels(msg, dir, r, panels, responses);
    if embedded.Failure? {
      EmbedAllCleansUp(st0, r, panels[..done], responses[..done]);
      assert FaultsAt(st0, r, panels, responses, done, dir.files);
      return Failure(embedded.error);
    }
    var t := Send(msg, mailList, sender);
    return Success(t);
  }

  /**
   * The assembled envelope for panels that all render: the alternative part
   * holding the template unchanged first, then one image part per panel in list
   * order, carrying the rendered bytes and named by the panel's file name.
   */
  lemma RenderedEnvelope(template: string, files: map<string, seq<byte>>, r: Renderer,
                         panels: seq<PanelSpec.Panel>, responses: seq<Response>)
    requires |panels| == |responses| && AllRendered(responses)
    ensures var all := EmbedAll(Stage([Alternative(template)], files), r, panels, responses);
            && all.Success?
            && |all.value.parts| == 1 + |panels|
            && all.value.parts[0] == Alternative(template)
            && (forall i :: 0 <= i < |panels| ==>
                  all.value.parts[1 + i] == ImagePart(responses[i].body, CreateFilename(panels[i].dashboard, panels[i].panelId)))
            && all.value.files == files - PanelPaths(panels)
  {
    var st := Stage([Alternative(template)], files);
    EmbedAllRendered(st, r, panels, responses);
    EmbedAllCleansUp(st, r, panels, responses);
    assert EmbedAll(st, r, panels, responses).value.parts[..1] == [Alternative(template)];
  }
}
