/**
 * The names graf-report.py derives from a panel: the temporary image file name
 * (`create_filename`), which is also the image's Content-ID, and the URL of the
 * renderer request built in `download`.
 */
module Naming {
  import opened Strings
  import PanelSpec

  /** `create_filename(dashboard, panelId)`. */
  function CreateFilename(dashboard: string, panelId: string): (name: string)
    ensures |name| == |dashboard| + |panelId| + 9
    ensures name[..4] == "img_" && name[|name| - 4..] == ".png"
  {
    "img_" + dashboard + "-" + panelId + ".png"
  }

  /** With panel ids free of `-`, different panels get different file names. */
  lemma FilenameInjective(d1: string, p1: string, d2: string, p2: string)
    requires '-' !in p1 && '-' !in p2
    requires CreateFilename(d1, p1) == CreateFilename(d2, p2)
    ensures d1 == d2 && p1 == p2
  {
    var n := CreateFilename(d1, p1);
    var m := n[4..|n| - 4];
    assert m == d1 + "-" + p1 by { assert n == "img_" + (d1 + "-" + p1) + ".png"; }
    assert m == d2 + "-" + p2 by { assert n == "img_" + (d2 + "-" + p2) + ".png"; }
    // both |d1| and |d2| are the position of the last `-` in m
    assert m[|d1|] == '-' && forall k :: |d1| < k < |m| ==> m[k] == p1[k - |d1| - 1];
    assert m[|d2|] == '-' && forall k :: |d2| < k < |m| ==> m[k] == p2[k - |d2| - 1];
    assert |d1| == |d2|;
    assert p1 == m[|d1| + 1..] == p2;
    assert d1 == m[..|d1|] == d2;
  }

  /** A signed panel id lets two accepted panels share one file name, hence one Content-ID:
      `(d-,p,...)` and `(d,-p,...)` both parse when `p` is a run of digits, and both name `img_d--p.png`. */
  lemma FilenameCollision(d: string, p: string)
    requires 0 < |p| <= PanelSpec.MaxIntDigits && forall i :: 0 <= i < |p| ==> PanelSpec.IsDigit(p[i])
    ensures PanelSpec.IsIntLiteral("-" + p)
    ensures CreateFilename(d + "-", p) == CreateFilename(d, "-" + p)
  {
    PanelSpec.SignedDigitsAreInt("-" + p);
  }

  const RenderPath := "/render/d-solo/"
  const ThemeParameter := "&theme=light"

  /** The path part of the renderer request, up to and including the dashboard. */
  function RenderTarget(server: string, panelToken: string, dashboard: string): (target: string)
    ensures |target| == |server| + |panelToken| + |dashboard| + 16
    ensures target[..|server|] == server
    ensures target[|target| - |dashboard| - 1..] == "/" + dashboard
  {
    server + RenderPath + panelToken + "/" + dashboard
  }

  /** The query parameters of the renderer request, in the order the request names them. */
  function RenderParameters(panelId: string, width: string, height: string): seq<string>
  {
    ["panelId=" + panelId, "width=" + width, "height=" + height, "theme=light"]
  }

  /** The URL `download` requests. */
  function RenderUrl(server: string, panelToken: string, dashboard: string,
                     panelId: string, width: string, height: string): (url: string)
    ensures |url| == |server| + |panelToken| + |dashboard| + |panelId| + |width| + |height| + 52
    ensures url[..|server|] == server
    ensures url[|url| - |ThemeParameter|..] == ThemeParameter
  {
    server + RenderPath + panelToken + "/" + dashboard +
    "?" + "panelId=" + panelId +
    "&" + "width=" + width +
    "&" + "height=" + height +
    "&" + "theme=light"
  }

  /** The URL splits at its first `?` into the target and a query that splits at `&` into the parameters. */
  predicate ReadsBack(server: string, panelToken: string, dashboard: string,
                      panelId: string, width: string, height: string)
  {
    var url := RenderUrl(server, panelToken, dashboard, panelId, width, height);
    var k := |RenderTarget(server, panelToken, dashboard)|;
    && url[..k] == RenderTarget(server, panelToken, dashboard)
    && url[k] == '?'
    && Split(url[k + 1..], '&') == RenderParameters(panelId, width, height)
  }

  /**
   * Reading the URL back: when the path holds no `?` and the panel fields hold no
   * `&`, the first `?` ends the path and the query splits into the four parameters
   * in order, carrying the panel fields unchanged.
   */
  lemma RenderUrlQuery(server: string, panelToken: string, dashboard: string,
                       panelId: string, width: string, height: string)
    requires '?' !in RenderTarget(server, panelToken, dashboard)
    requires '&' !in panelId && '&' !in width && '&' !in height
    ensures ReadsBack(server, panelToken, dashboard, panelId, width, height)
  {
    var url := RenderUrl(server, panelToken, dashboard, panelId, width, height);
    var target := RenderTarget(server, panelToken, dashboard);
    var params := RenderParameters(panelId, width, height);
    RenderUrlShape(server, panelToken, dashboard, panelId, width, height);
    assert url[|target| + 1..] == Join(params, "&");
    assert forall i :: 0 <= i < 4 ==> '&' !in params[i] by {
      NoAmpersandAfterName("panelId=", panelId);
      NoAmpersandAfterName("width=", width);
      NoAmpersandAfterName("height=", height);
    }
    SplitJoin(params, '&');
  }

  /** The URL is the target, a `?`, and the parameters joined by `&`. */
  lemma RenderUrlShape(server: string, panelToken: string, dashboard: string,
                       panelId: string, width: string, height: string)
    ensures RenderUrl(server, panelToken, dashboard, panelId, width, height)
         == RenderTarget(server, panelToken, dashboard) + "?" + Join(RenderParameters(panelId, width, height), "&")
  {
    var params := RenderParameters(panelId, width, height);
    JoinFour(params[0], params[1], params[2], params[3], "&");
    assert params == [params[0], params[1], params[2], params[3]];
  }

  lemma JoinFour(a: string, b: string, c: string, d: string, sep: string)
    ensures Join([a, b, c, d], sep) == a + sep + b + sep + c + sep + d
  {
    assert [c, d][1..] == [d];
    assert Join([c, d], sep) == c + sep + d;
    assert [b, c, d][1..] == [c, d];
    assert Join([b, c, d], sep) == b + sep + (c + sep + d);
    assert [a, b, c, d][1..] == [b, c, d];
  }

  lemma NoAmpersandAfterName(name: string, value: string)
    requires '&' !in name && '&' !in value
    ensures '&' !in name + value
  {
    assert forall x :: x in name + value ==> x in name || x in value;
  }

  /** For a parsed panel, the query carries its id, width and height whenever the path holds no `?`. */
  lemma RenderUrlOfPanel(server: string, panelToken: string, p: PanelSpec.Panel)
    requires PanelSpec.WellFormed(p)
    requires '?' !in RenderTarget(server, panelToken, p.dashboard)
    ensures ReadsBack(server, panelToken, p.dashboard, p.panelId, p.width, p.height)
  {
    assert '&' !in p.panelId && '&' !in p.width && '&' !in p.height by {
      IntLiteralHasNoAmpersand(p.panelId);
      IntLiteralHasNoAmpersand(p.width);
      IntLiteralHasNoAmpersand(p.height);
    }
    RenderUrlQuery(server, panelToken, p.dashboard, p.panelId, p.width, p.height);
  }

  /** An integer literal holds only whitespace, a sign, digits and underscores, so no `&`. */
  lemma IntLiteralHasNoAmpersand(s: string)
    requires PanelSpec.IsIntLiteral(s)
    ensures '&' !in s
  {
    PanelSpec.IntLiteralChars(s);
    assert !PanelSpec.IsIntChar('&');
  }
}
