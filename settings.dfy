/**
 * The one piece of logic in CustomUriRedirectSettingTab: the check its
 * "Redirect Domain" text field runs on every change. A value that does not
 * start with `https://` is answered with a notice; any other value is only
 * logged. The value is stored nowhere, so the redirect base the rewriter
 * uses stays the hard-coded one whatever is typed.
 */
module CustomUriRedirectSettingTab {
  import opened Options
  import opened JsString
  import opened CustomUriRedirectPlugin

  /** The value the text field starts out with. */
  const DefaultDomain: string := Https + "jax-baiya.github.io/custom-uri-redirect-plugin"

  /** The notice shown for a rejected value. */
  const InvalidDomainNotice: string := "Invalid domain format. Please enter a valid URL starting with https://"

  /** `value.startsWith('https://')` */
  predicate DomainAccepted(value: string)
  {
    StartsWith(value, Https)
  }

  /** The onChange handler: the notice it shows, or None when the value passes. */
  function OnDomainChange(value: string): (notice: Option<string>)
    ensures notice.None? <==> (exists rest :: value == Https + rest)
    ensures notice.Some? ==> notice.value == InvalidDomainNotice
  {
    DomainAcceptedShape(value);
    if !DomainAccepted(value) then Some(InvalidDomainNotice) else None
  }

  /** A value passes exactly when it is `https://` followed by anything. */
  lemma DomainAcceptedShape(value: string)
    ensures DomainAccepted(value) <==> (exists rest :: value == Https + rest)
  {
    if DomainAccepted(value) {
      assert value == Https + value[|Https|..];
    } else {
      forall rest ensures value != Https + rest {
        if value == Https + rest {
          StartsWithSelf(Https, rest);
        }
      }
    }
  }

  /** The default value passes. */
  lemma DefaultDomainAccepted()
    ensures OnDomainChange(DefaultDomain).None?
  {
    StartsWithSelf(Https, "jax-baiya.github.io/custom-uri-redirect-plugin");
  }

  /** A plain http URL is rejected, whatever follows the scheme. */
  lemma HttpRejected(rest: string)
    ensures OnDomainChange("http://" + rest) == Some(InvalidDomainNotice)
  {
    var v := "http://" + rest;
    if |v| >= |Https| {
      assert v[4] == ':' && Https[4] == 's';
      assert v[..|Https|][4] == v[4];
    }
  }

  /** Every URL the rewriter or the generator makes would pass the check. */
  lemma ProducedUrlsAccepted(href: string, activeFilePath: Option<string>, vaultName: string)
    ensures RewriteHref(href).Some? ==> OnDomainChange(RewriteHref(href).value).None?
    ensures GenerateLinkForCurrentNote(activeFilePath, vaultName).Some? ==>
            OnDomainChange(GenerateLinkForCurrentNote(activeFilePath, vaultName).value).None?
  {
    if activeFilePath.Some? {
      PagesHttps();
      StartsWithTrans(GenerateLinkForCurrentNote(activeFilePath, vaultName).value, OpenEndpoint + "?", Https);
    }
  }
}
