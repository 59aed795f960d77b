/**
 * The link rewriter and the link generator of CustomUriRedirectPlugin
 * (custom-uri-redirect-plugin/main.ts).
 *
 * The markdown post-processor looks at every rendered anchor whose href is
 * an `obsidian:` link. An `obsidian://open` link with a vault and a file, or
 * an `obsidian://adv-uri` link with a vault, a uid and a file path, is
 * pointed at a redirect page under a fixed https base instead, with the
 * parameters re-encoded by encodeURIComponent. Its text is replaced by
 * "Redirected to: " and the new URL. Every other anchor is left as it was.
 */
module CustomUriRedirectPlugin {
  import opened Options
  import opened JsString
  import opened UriComponent
  import opened FormUrlEncoded

  const OpenPrefix: string := "obsidian://open"
  const AdvUriPrefix: string := "obsidian://adv-uri"

  const Https: string := "https://"

  /** The redirect pages, hard-coded in the three places that build a URL. */
  const RedirectBase: string := Https + "jax-baiya.github.io/custom-uri-redirect-plugin/"
  const OpenEndpoint: string := RedirectBase + "obsidian-open"
  const AdvUriEndpoint: string := RedirectBase + "obsidian-adv-uri"

  const RedirectedPrefix: string := "Redirected to: "

  /** A JavaScript truthiness test on the result of URLSearchParams.get: neither null nor "". */
  predicate Truthy(v: Option<string>)
    ensures !Truthy(v) <==> v == None || v == Some("")
  {
    v.Some? && v.value != ""
  }

  /** The redirect URL of an open link: the open page, `?`, then the query. */
  function OpenUrl(vault: string, file: string): (url: string)
    ensures StartsWith(url, OpenEndpoint + "?") && StartsWith(url, Https)
  {
    var url := OpenEndpoint + "?vault=" + EncodeUriComponent(vault) + "&file=" + EncodeUriComponent(file);
    OpenShape(OpenEndpoint, vault, file);
    StartsWithSelf(OpenEndpoint + "?", QueryString([Pair("vault", vault), Pair("file", file)]));
    PagesHttps();
    StartsWithTrans(url, OpenEndpoint + "?", Https);
    url
  }

  /** The redirect URL of an adv-uri link: the adv-uri page, `?`, then the query. */
  function AdvUriUrl(vault: string, uid: string, filepath: string): (url: string)
    ensures StartsWith(url, AdvUriEndpoint + "?") && StartsWith(url, Https)
  {
    var url := AdvUriEndpoint + "?vault=" + EncodeUriComponent(vault) + "&uid=" + EncodeUriComponent(uid) +
               "&filepath=" + EncodeUriComponent(filepath);
    AdvUriShape(AdvUriEndpoint, vault, uid, filepath);
    StartsWithSelf(AdvUriEndpoint + "?",
                   QueryString([Pair("vault", vault), Pair("uid", uid), Pair("filepath", filepath)]));
    PagesHttps();
    StartsWithTrans(url, AdvUriEndpoint + "?", Https);
    url
  }

  /** Both redirect pages are https URLs. */
  lemma PagesHttps()
    ensures StartsWith(OpenEndpoint + "?", Https) && StartsWith(AdvUriEndpoint + "?", Https)
  {
    StartsWithSelf(Https, "jax-baiya.github.io/custom-uri-redirect-plugin/");
    StartsWithConcat(RedirectBase, "obsidian-open", Https);
    StartsWithConcat(OpenEndpoint, "?", Https);
    StartsWithConcat(RedirectBase, "obsidian-adv-uri", Https);
    StartsWithConcat(AdvUriEndpoint, "?", Https);
  }

  /** The parameter names are letters only, so encodeURIComponent leaves them as they are. */
  lemma NamesUnreserved()
    ensures EncodeUriComponent("vault") == "vault"
    ensures EncodeUriComponent("file") == "file"
    ensures EncodeUriComponent("uid") == "uid"
    ensures EncodeUriComponent("filepath") == "filepath"
  {
    VaultUnreserved();
    FileUnreserved();
    UidUnreserved();
    FilepathUnreserved();
  }

  lemma VaultUnreserved()
    ensures EncodeUriComponent("vault") == "vault"
  {
    EncodeUnreserved("vault");
  }

  lemma FileUnreserved()
    ensures EncodeUriComponent("file") == "file"
  {
    EncodeUnreserved("file");
  }

  lemma UidUnreserved()
    ensures EncodeUriComponent("uid") == "uid"
  {
    EncodeUnreserved("uid");
  }

  lemma FilepathUnreserved()
    ensures EncodeUriComponent("filepath") == "filepath"
  {
    assert "filepath" == "file" + "path";
    UriComponent.EncodeAppend("file", "path");
    FileUnreserved();
    EncodeUnreserved("path");
  }

  // Proof helpers: they regroup string concatenations so that the solver never
  // compares long string literals.

  /** A field whose name encodes to itself is `name=` followed by the encoded value. */
  lemma FieldOfName(name: string, nameEq: string, value: string)
    requires EncodeUriComponent(name) == name && nameEq == name + "="
    ensures Field(Pair(name, value)) == nameEq + EncodeUriComponent(value)
  {
  }

  /** The query of two pairs, written out. */
  lemma QueryTwo(p: Pair, q: Pair)
    ensures QueryString([p, q]) == Field(p) + "&" + Field(q)
  {
    assert [p, q][1..] == [q];
  }

  /** The query of three pairs, written out. */
  lemma QueryThree(p: Pair, q: Pair, r: Pair)
    ensures QueryString([p, q, r]) == Field(p) + "&" + (Field(q) + "&" + Field(r))
  {
    assert [p, q, r][1..] == [q, r];
    QueryTwo(q, r);
  }

  /** Proof helper: the same concatenation of two fields, grouped as `front ? query`. */
  lemma Regroup2(f: string, n1: string, x: string, n2: string, y: string)
    ensures f + ("?" + n1) + x + ("&" + n2) + y == f + "?" + ((n1 + x) + "&" + (n2 + y))
  {
  }

  /** Proof helper: the same for three fields. */
  lemma Regroup3(f: string, n1: string, x: string, n2: string, y: string, n3: string, z: string)
    ensures f + ("?" + n1) + x + ("&" + n2) + y + ("&" + n3) + z ==
            f + "?" + ((n1 + x) + "&" + ((n2 + y) + "&" + (n3 + z)))
  {
  }

  lemma OpenQuery(vault: string, file: string)
    ensures QueryString([Pair("vault", vault), Pair("file", file)]) ==
            "vault=" + EncodeUriComponent(vault) + "&" + ("file=" + EncodeUriComponent(file))
  {
    NamesUnreserved();
    Separators();
    QueryTwo(Pair("vault", vault), Pair("file", file));
    FieldOfName("vault", "vault=", vault);
    FieldOfName("file", "file=", file);
  }

  lemma AdvUriQuery(vault: string, uid: string, filepath: string)
    ensures QueryString([Pair("vault", vault), Pair("uid", uid), Pair("filepath", filepath)]) ==
            "vault=" + EncodeUriComponent(vault) + "&" +
            ("uid=" + EncodeUriComponent(uid) + "&" + ("filepath=" + EncodeUriComponent(filepath)))
  {
    NamesUnreserved();
    Separators();
    QueryThree(Pair("vault", vault), Pair("uid", uid), Pair("filepath", filepath));
    FieldOfName("vault", "vault=", vault);
    FieldOfName("uid", "uid=", uid);
    FieldOfName("filepath", "filepath=", filepath);
  }

  /** Proof helper: the literal pieces of the URL templates, split at the separators. */
  lemma Separators()
    ensures "?vault=" == "?" + "vault=" && "&file=" == "&" + "file="
    ensures "&uid=" == "&" + "uid=" && "&filepath=" == "&" + "filepath="
    ensures "vault=" == "vault" + "=" && "file=" == "file" + "="
    ensures "uid=" == "uid" + "=" && "filepath=" == "filepath" + "="
  {
  }

  /** Whatever comes first, `?vault=V&file=F` as the code writes it is `?` and the query of those two pairs. */
  lemma OpenShape(front: string, vault: string, file: string)
    ensures front + "?vault=" + EncodeUriComponent(vault) + "&file=" + EncodeUriComponent(file) ==
            front + "?" + QueryString([Pair("vault", vault), Pair("file", file)])
  {
    OpenQuery(vault, file);
    Separators();
    Regroup2(front, "vault=", EncodeUriComponent(vault), "file=", EncodeUriComponent(file));
  }

  /** The same for `?vault=V&uid=U&filepath=P` and its three pairs. */
  lemma AdvUriShape(front: string, vault: string, uid: string, filepath: string)
    ensures front + "?vault=" + EncodeUriComponent(vault) + "&uid=" + EncodeUriComponent(uid) +
            "&filepath=" + EncodeUriComponent(filepath) ==
            front + "?" + QueryString([Pair("vault", vault), Pair("uid", uid), Pair("filepath", filepath)])
  {
    AdvUriQuery(vault, uid, filepath);
    Separators();
    Regroup3(front, "vault=", EncodeUriComponent(vault), "uid=", EncodeUriComponent(uid),
             "filepath=", EncodeUriComponent(filepath));
  }

  /** The query parameters of an href taken as an open link. */
  function OpenParams(href: string): (ps: seq<Pair>)
    ensures StartsWith(href, OpenPrefix + "?") ==> ps == SearchParams(href[|OpenPrefix + "?"|..])
    ensures JsString.IndexOf(href, OpenPrefix + "?", 0).None? ==> ps == SearchParams(href)
  {
    RemovePrefix(href, OpenPrefix + "?");
    SearchParams(RemoveFirst(href, OpenPrefix + "?"))
  }

  /** The query parameters of an href taken as an adv-uri link. */
  function AdvUriParams(href: string): (ps: seq<Pair>)
    ensures StartsWith(href, AdvUriPrefix + "?") ==> ps == SearchParams(href[|AdvUriPrefix + "?"|..])
    ensures JsString.IndexOf(href, AdvUriPrefix + "?", 0).None? ==> ps == SearchParams(href)
  {
    RemovePrefix(href, AdvUriPrefix + "?");
    SearchParams(RemoveFirst(href, AdvUriPrefix + "?"))
  }

  /**
   * The URL an anchor with this href is redirected to, or None when it is
   * left alone: an unrecognised href, or a recognised one lacking a
   * required parameter.
   */
  function RewriteHref(href: string): (r: Option<string>)
    ensures r.Some? ==> StartsWith(href, OpenPrefix) || StartsWith(href, AdvUriPrefix)
    ensures r.Some? ==> StartsWith(r.value, Https)
  {
    if StartsWith(href, OpenPrefix) then
      var params := OpenParams(href);
      var vault, file := Get(params, "vault"), Get(params, "file");
      if Truthy(vault) && Truthy(file) then Some(OpenUrl(vault.value, file.value)) else None
    else if StartsWith(href, AdvUriPrefix) then
      var params := AdvUriParams(href);
      var vault, uid, filepath := Get(params, "vault"), Get(params, "uid"), Get(params, "filepath");
      if Truthy(vault) && Truthy(uid) && Truthy(filepath) then
        Some(AdvUriUrl(vault.value, uid.value, filepath.value))
      else None
    else None
  }

  /** What the post-processor reads and writes of an anchor. */
  datatype LinkView = LinkView(href: string, text: string)

  /** An anchor after the post-processor has been over it. */
  function Processed(v: LinkView): (r: LinkView)
    ensures RewriteHref(v.href).None? <==> r == v
    ensures r != v ==> StartsWith(r.href, Https) && r.text == RedirectedPrefix + r.href
    ensures RewriteHref(r.href).None?
  {
    RewrittenIsFixed(v.href);
    match RewriteHref(v.href)
    case Some(url) => LinkView(url, RedirectedPrefix + url)
    case None => v
  }

  /** A rendered anchor element: its href attribute and its text content. */
  class Anchor {
    var href: string
    var text: string

    constructor (href: string, text: string)
      ensures this.href == href && this.text == text
    {
      this.href := href;
      this.text := text;
    }

    function View(): LinkView
      reads this
    {
      LinkView(href, text)
    }
  }

  /**
   * The callback processCustomUriLinks runs on each anchor: a non-empty
   * href that RewriteHref turns into a non-empty URL gets that URL as its
   * href and `Redirected to: ` followed by it as its text.
   */
  method ProcessLink(link: Anchor)
    modifies link
    ensures link.View() == Processed(old(link.View()))
  {
    var href := link.href;
    if href != "" {
      var notionUrl := RewriteHref(href).GetOr("");
      if notionUrl != "" {
        link.href := notionUrl;
        link.text := RedirectedPrefix + notionUrl;
      } else {
        NoUrlUnchanged(href);
      }
    }
  }

  /** When RewriteHref gives a URL, the URL is not empty. */
  lemma NoUrlUnchanged(href: string)
    ensures RewriteHref(href).GetOr("") == "" ==> RewriteHref(href).None?
  {
    if RewriteHref(href).Some? {
      assert RewriteHref(href).value[0] == 'h';
    }
  }

  lemma SliceNext<T>(s: seq<T>, i: nat)
    requires i < |s|
    ensures s[..i + 1] == s[..i] + [s[i]]
  {
  }

  /**
   * processCustomUriLinks: every anchor of the list ends up as Processed of
   * what it was, whether it occurs in the list once or more often.
   */
  method ProcessCustomUriLinks(links: seq<Anchor>)
    modifies set a | a in links
    ensures forall a :: a in links ==> a.View() == Processed(old(a.View()))
  {
    var i := 0;
    while i < |links|
      invariant 0 <= i <= |links|
      invariant forall a :: a in links[..i] ==> a.View() == Processed(old(a.View()))
      invariant forall a :: a in links && a !in links[..i] ==> a.View() == old(a.View())
    {
      var link := links[i];
      ProcessLink(link);
      ProcessedIdempotent(old(link.View()));
      SliceNext(links, i);
      i := i + 1;
    }
    assert links[..i] == links;
  }

  /**
   * generateLinkForCurrentNote: the open redirect URL for the active file,
   * or None when no file is active.
   */
  function GenerateLinkForCurrentNote(activeFilePath: Option<string>, vaultName: string): (r: Option<string>)
    ensures r.None? <==> activeFilePath.None?
    ensures r.Some? ==> StartsWith(r.value, OpenEndpoint + "?")
    ensures r.Some? ==> SearchParams(r.value[|OpenEndpoint|..]) ==
                        [Pair("vault", vaultName), Pair("file", activeFilePath.value)]
  {
    match activeFilePath
    case None => None
    case Some(path) =>
      OpenUrlRoundTrip(vaultName, path);
      Some(OpenUrl(vaultName, path))
  }

  // ---------------------------------------------------------------------
  // Properties

  /** The two recognised prefixes exclude each other, so at most one branch applies. */
  lemma PrefixesExclusive(href: string)
    ensures StartsWith(href, OpenPrefix) ==> !StartsWith(href, AdvUriPrefix)
  {
    if StartsWith(href, OpenPrefix) {
      assert href[11] == href[..|OpenPrefix|][11] == 'o';
    }
  }

  /** An href with neither prefix gives no URL, and its anchor keeps its href and text. */
  lemma UnrecognizedUnchanged(v: LinkView)
    requires !StartsWith(v.href, OpenPrefix) && !StartsWith(v.href, AdvUriPrefix)
    ensures RewriteHref(v.href).None?
    ensures Processed(v) == v
  {
  }

  /** An open link is rewritten exactly when `vault` and `file` are both present and non-empty. */
  lemma OpenRewrite(href: string)
    requires StartsWith(href, OpenPrefix)
    ensures RewriteHref(href).Some? <==>
      Truthy(Get(OpenParams(href), "vault")) && Truthy(Get(OpenParams(href), "file"))
    ensures RewriteHref(href).Some? ==>
      RewriteHref(href).value == OpenUrl(Get(OpenParams(href), "vault").value, Get(OpenParams(href), "file").value)
  {
  }

  /** An adv-uri link is rewritten exactly when `vault`, `uid` and `filepath` are all present and non-empty. */
  lemma AdvUriRewrite(href: string)
    requires StartsWith(href, AdvUriPrefix)
    ensures RewriteHref(href).Some? <==>
      Truthy(Get(AdvUriParams(href), "vault")) && Truthy(Get(AdvUriParams(href), "uid")) &&
      Truthy(Get(AdvUriParams(href), "filepath"))
    ensures RewriteHref(href).Some? ==>
      RewriteHref(href).value == AdvUriUrl(Get(AdvUriParams(href), "vault").value,
                                           Get(AdvUriParams(href), "uid").value,
                                           Get(AdvUriParams(href), "filepath").value)
  {
    PrefixesExclusive(href);
  }

  /**
   * The redirect page for open links, reading its query with
   * URLSearchParams, gets back exactly the vault and the file: spaces,
   * `&`, `=`, `#` and non-ASCII characters included.
   */
  lemma OpenUrlRoundTrip(vault: string, file: string)
    ensures StartsWith(OpenUrl(vault, file), OpenEndpoint + "?")
    ensures SearchParams(OpenUrl(vault, file)[|OpenEndpoint|..]) == [Pair("vault", vault), Pair("file", file)]
  {
    var ps := [Pair("vault", vault), Pair("file", file)];
    OpenShape(OpenEndpoint, vault, file);
    DropPrefix(OpenEndpoint, "?" + QueryString(ps));
    SearchParamsQueryString(ps);
  }

  /** The same for the adv-uri redirect page and its three parameters. */
  lemma AdvUriUrlRoundTrip(vault: string, uid: string, filepath: string)
    ensures StartsWith(AdvUriUrl(vault, uid, filepath), AdvUriEndpoint + "?")
    ensures SearchParams(AdvUriUrl(vault, uid, filepath)[|AdvUriEndpoint|..]) ==
            [Pair("vault", vault), Pair("uid", uid), Pair("filepath", filepath)]
  {
    var ps := [Pair("vault", vault), Pair("uid", uid), Pair("filepath", filepath)];
    AdvUriShape(AdvUriEndpoint, vault, uid, filepath);
    DropPrefix(AdvUriEndpoint, "?" + QueryString(ps));
    SearchParamsQueryString(ps);
  }

  /** A produced URL differs from the href it came from, and is not rewritten itself: it is https, not obsidian. */
  lemma RewrittenIsFixed(href: string)
    ensures RewriteHref(href).Some? ==> RewriteHref(href).value != href
    ensures RewriteHref(href).Some? ==> RewriteHref(RewriteHref(href).value).None?
  {
    if RewriteHref(href).Some? {
      var url := RewriteHref(href).value;
      assert url[0] == 'h';
      assert !StartsWith(url, OpenPrefix) && !StartsWith(url, AdvUriPrefix) by {
        assert OpenPrefix[0] == 'o' && AdvUriPrefix[0] == 'o';
      }
      assert href[0] == 'o';
    }
  }

  /** A rewritten href is never rewritten again: running the post-processor twice changes nothing more. */
  lemma ProcessedIdempotent(v: LinkView)
    ensures Processed(Processed(v)) == Processed(v)
  {
  }

  /** An `obsidian://open` link whose values went through encodeURIComponent. */
  function ObsidianOpenHref(vault: string, file: string): string
  {
    OpenPrefix + "?vault=" + EncodeUriComponent(vault) + "&file=" + EncodeUriComponent(file)
  }

  /** An `obsidian://adv-uri` link whose values went through encodeURIComponent. */
  function ObsidianAdvUriHref(vault: string, uid: string, filepath: string): string
  {
    AdvUriPrefix + "?vault=" + EncodeUriComponent(vault) + "&uid=" + EncodeUriComponent(uid) +
    "&filepath=" + EncodeUriComponent(filepath)
  }

  /** `get` on the two pairs of an open query finds each value. */
  lemma GetOpenPairs(vault: string, file: string)
    ensures Get([Pair("vault", vault), Pair("file", file)], "vault") == Some(vault)
    ensures Get([Pair("vault", vault), Pair("file", file)], "file") == Some(file)
  {
    assert "file" != "vault" by {
      assert "file"[0] == 'f';
    }
  }

  /** `get` on the three pairs of an adv-uri query finds each value. */
  lemma GetAdvUriPairs(vault: string, uid: string, filepath: string)
    ensures Get([Pair("vault", vault), Pair("uid", uid), Pair("filepath", filepath)], "vault") == Some(vault)
    ensures Get([Pair("vault", vault), Pair("uid", uid), Pair("filepath", filepath)], "uid") == Some(uid)
    ensures Get([Pair("vault", vault), Pair("uid", uid), Pair("filepath", filepath)], "filepath") == Some(filepath)
  {
    assert "uid" != "vault" && "filepath" != "vault" && "filepath" != "uid" by {
      assert "uid"[0] == 'u' && "filepath"[0] == 'f';
    }
    var ps := [Pair("vault", vault), Pair("uid", uid), Pair("filepath", filepath)];
    assert ps[1..] == [Pair("uid", uid), Pair("filepath", filepath)];
    assert Get(ps[1..][1..], "filepath") == Some(filepath);
  }

  /** An open link whose values went through encodeURIComponent is recognised, and its query parses back to the two pairs. */
  lemma OpenHrefParses(vault: string, file: string)
    ensures StartsWith(ObsidianOpenHref(vault, file), OpenPrefix)
    ensures OpenParams(ObsidianOpenHref(vault, file)) == [Pair("vault", vault), Pair("file", file)]
  {
    var href := ObsidianOpenHref(vault, file);
    var ps := [Pair("vault", vault), Pair("file", file)];
    var q := QueryString(ps);
    OpenShape(OpenPrefix, vault, file);
    StartsWithSelf(OpenPrefix + "?", q);
    RemovePrefix(href, OpenPrefix + "?");
    DropPrefix(OpenPrefix + "?", q);
    SearchParamsQueryString(ps);
    StartsWithSelf(OpenPrefix, "?");
    StartsWithTrans(href, OpenPrefix + "?", OpenPrefix);
  }

  /** An adv-uri link whose values went through encodeURIComponent is recognised, and its query parses back to the three pairs. */
  lemma AdvUriHrefParses(vault: string, uid: string, filepath: string)
    ensures StartsWith(ObsidianAdvUriHref(vault, uid, filepath), AdvUriPrefix)
    ensures AdvUriParams(ObsidianAdvUriHref(vault, uid, filepath)) ==
            [Pair("vault", vault), Pair("uid", uid), Pair("filepath", filepath)]
  {
    var href := ObsidianAdvUriHref(vault, uid, filepath);
    var ps := [Pair("vault", vault), Pair("uid", uid), Pair("filepath", filepath)];
    var q := QueryString(ps);
    AdvUriShape(AdvUriPrefix, vault, uid, filepath);
    StartsWithSelf(AdvUriPrefix + "?", q);
    RemovePrefix(href, AdvUriPrefix + "?");
    DropPrefix(AdvUriPrefix + "?", q);
    SearchParamsQueryString(ps);
    StartsWithSelf(AdvUriPrefix, "?");
    StartsWithTrans(href, AdvUriPrefix + "?", AdvUriPrefix);
  }

  /**
   * A well-formed open link with a non-empty vault and file is redirected to
   * exactly the open page with those two values re-encoded.
   */
  lemma RewriteObsidianOpen(vault: string, file: string)
    requires vault != "" && file != ""
    ensures RewriteHref(ObsidianOpenHref(vault, file)) == Some(OpenUrl(vault, file))
  {
    var href := ObsidianOpenHref(vault, file);
    OpenHrefParses(vault, file);
    GetOpenPairs(vault, file);
    OpenRewrite(href);
  }

  /** A well-formed adv-uri link with non-empty values is redirected to exactly the adv-uri page. */
  lemma RewriteObsidianAdvUri(vault: string, uid: string, filepath: string)
    requires vault != "" && uid != "" && filepath != ""
    ensures RewriteHref(ObsidianAdvUriHref(vault, uid, filepath)) == Some(AdvUriUrl(vault, uid, filepath))
  {
    var href := ObsidianAdvUriHref(vault, uid, filepath);
    AdvUriHrefParses(vault, uid, filepath);
    GetAdvUriPairs(vault, uid, filepath);
    AdvUriRewrite(href);
  }

  /**
   * The "Generate Custom URI Link" command gives the same URL the
   * post-processor makes of the open link for that vault and file.
   */
  lemma GeneratedLinkMatchesRewrite(vaultName: string, path: string)
    requires vaultName != "" && path != ""
    ensures GenerateLinkForCurrentNote(Some(path), vaultName) == RewriteHref(ObsidianOpenHref(vaultName, path))
  {
    RewriteObsidianOpen(vaultName, path);
  }

  /**
   * A rewritten link carries its parameters through: the redirect page reads
   * back the same vault and file (or vault, uid and filepath) that `get`
   * found in the original href.
   */
  lemma RewritePreservesParameters(href: string)
    requires RewriteHref(href).Some?
    ensures StartsWith(href, OpenPrefix) ==>
      var url := RewriteHref(href).value;
      var back := SearchParams(url[|OpenEndpoint|..]);
      Get(back, "vault") == Get(OpenParams(href), "vault") && Get(back, "file") == Get(OpenParams(href), "file")
    ensures !StartsWith(href, OpenPrefix) ==>
      var url := RewriteHref(href).value;
      var back := SearchParams(url[|AdvUriEndpoint|..]);
      Get(back, "vault") == Get(AdvUriParams(href), "vault") && Get(back, "uid") == Get(AdvUriParams(href), "uid") &&
      Get(back, "filepath") == Get(AdvUriParams(href), "filepath")
  {
    if StartsWith(href, OpenPrefix) {
      var ps := OpenParams(href);
      OpenRewrite(href);
      OpenUrlRoundTrip(Get(ps, "vault").value, Get(ps, "file").value);
      GetOpenPairs(Get(ps, "vault").value, Get(ps, "file").value);
    } else {
      var ps := AdvUriParams(href);
      AdvUriRewrite(href);
      AdvUriUrlRoundTrip(Get(ps, "vault").value, Get(ps, "uid").value, Get(ps, "filepath").value);
      GetAdvUriPairs(Get(ps, "vault").value, Get(ps, "uid").value, Get(ps, "filepath").value);
    }
  }
}
