/**
 * Choosing the IMAP server for a mailbox address: a fixed table of
 * well-known providers, keyed by the lower-cased domain after the first
 * `@`; otherwise `imap.<domain>`, and Gmail's server when there is no
 * domain at all.
 */
module ImapHost {
  import opened Strings

  /** The provider table, domain to IMAP server. */
  const HostMap: map<string, string> := map[
    "gmail.com" := "imap.gmail.com",
    "googlemail.com" := "imap.gmail.com",
    "gmx.de" := "imap.gmx.net",
    "gmx.net" := "imap.gmx.net",
    "gmx.at" := "imap.gmx.net",
    "web.de" := "imap.web.de",
    "yahoo.com" := "imap.mail.yahoo.com",
    "yahoo.co.uk" := "imap.mail.yahoo.com",
    "yandex.ru" := "imap.yandex.com",
    "yandex.com" := "imap.yandex.com",
    "mail.ru" := "imap.mail.ru",
    "bk.ru" := "imap.mail.ru",
    "list.ru" := "imap.mail.ru",
    "inbox.ru" := "imap.mail.ru",
    "outlook.com" := "outlook.office365.com",
    "hotmail.com" := "outlook.office365.com",
    "live.com" := "outlook.office365.com",
    "office365.com" := "outlook.office365.com",
    "icloud.com" := "imap.mail.me.com",
    "me.com" := "imap.mail.me.com",
    "aol.com" := "imap.aol.com"
  ]

  /** The server used when the address has no domain. */
  const DefaultHost: string := "imap.gmail.com"

  /** `(addr.split("@", 1)[1] if "@" in addr else "").lower()`. */
  function DomainOf(addr: string): (d: string)
    ensures '@' !in addr ==> d == []
  {
    if '@' in addr then
      SplitOnceAt(addr, '@');
      Lower(SplitN(addr, '@', 1)[1])
    else []
  }

  /** `resolve_imap_host`. */
  function ResolveImapHost(addr: string): (host: string)
    ensures host != []
  {
    var domain := DomainOf(addr);
    if domain in HostMap then HostMap[domain]
    else if domain != [] then "imap." + domain
    else DefaultHost
  }

  // ---------------------------------------------------------------------
  // What the resolver promises
  // ---------------------------------------------------------------------

  /** The domain is everything after the first `@`, lower-cased (later `@`s stay in it). */
  lemma DomainOfAddress(local: string, domain: string)
    requires '@' !in local
    ensures DomainOf(local + ['@'] + domain) == Lower(domain)
  {
    var s := local + ['@'] + domain;
    assert s[|local|] == '@';
    IndexOfAfter(local, '@', domain);
    SplitOnceAt(s, '@');
    assert s[|local| + 1..] == domain;
  }

  /** An address `local@domain` gets the table's server, else `imap.<domain>`, else the default when the domain is empty. */
  lemma ResolveAddress(local: string, domain: string)
    requires '@' !in local
    ensures Lower(domain) in HostMap ==> ResolveImapHost(local + ['@'] + domain) == HostMap[Lower(domain)]
    ensures Lower(domain) !in HostMap && domain != [] ==>
              ResolveImapHost(local + ['@'] + domain) == "imap." + Lower(domain)
    ensures domain == [] ==> ResolveImapHost(local + ['@'] + domain) == DefaultHost
  {
    DomainOfAddress(local, domain);
  }

  /** Without an `@` the default server, the one Gmail addresses use, is chosen. */
  lemma ResolveWithoutAt(addr: string)
    requires '@' !in addr
    ensures ResolveImapHost(addr) == DefaultHost
    ensures "gmail.com" in HostMap && ResolveImapHost(addr) == HostMap["gmail.com"]
  {
  }

  lemma LowerIdempotent(s: string)
    ensures Lower(Lower(s)) == Lower(s)
  {
  }

  lemma {:induction false} IndexOfLower(s: string, c: char)
    requires !('A' <= c <= 'Z') && !('a' <= c <= 'z')
    ensures IndexOf(Lower(s), c) == IndexOf(s, c)
  {
    if s != [] {
      assert Lower(s)[0] == c <==> s[0] == c;
      assert Lower(s)[1..] == Lower(s[1..]);
      IndexOfLower(s[1..], c);
    }
  }

  /** Lower-casing the address first changes nothing: the lookup already ignores case. */
  lemma ResolveIgnoresCase(addr: string)
    ensures DomainOf(Lower(addr)) == DomainOf(addr)
    ensures ResolveImapHost(Lower(addr)) == ResolveImapHost(addr)
  {
    var low := Lower(addr);
    assert '@' in low <==> '@' in addr by {
      assert forall i :: 0 <= i < |addr| ==> (low[i] == '@' <==> addr[i] == '@');
    }
    if '@' in addr {
      SplitOnceAt(addr, '@');
      SplitOnceAt(low, '@');
      IndexOfLower(addr, '@');
      var i := IndexOf(addr, '@');
      assert low[i + 1..] == Lower(addr[i + 1..]);
      LowerIdempotent(addr[i + 1..]);
    }
  }
}
