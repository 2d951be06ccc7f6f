/** The HTTP side of the server (`getHttpFilename` and `httpHandler` in quickshare.go): a
    request URI is reduced to a file name, which selects the index page, a share to download,
    or the 404 answer. Writing the file's bytes is not part of this model; a download is
    represented by the share it serves. */
module Http {
  import opened Text
  import opened Shares
  import opened Registry

  /** The part of a request URI after its first '/', or "" when it has none. */
  function GetHttpFilename(uri: string): (r: string)
    ensures '/' !in uri ==> r == ""
    ensures '/' in uri ==>
              |r| < |uri| && r == uri[|uri| - |r|..] && uri[|uri| - |r| - 1] == '/'
              && '/' !in uri[..|uri| - |r| - 1]
  {
    var i := IndexOf(uri, '/');
    if i < 0 then "" else uri[i + 1..]
  }

  /** The path `/name` asks for `name`, whatever `name` contains. */
  lemma {:induction false} GetHttpFilenameOfPath(name: string)
    ensures GetHttpFilename("/" + name) == name
  {
    IndexOfAfterPrefix([], '/', name);
    assert [] + ['/'] + name == "/" + name;
  }

  /** The names that select the index page instead of a share. */
  predicate IsIndexName(f: string) {
    f == "" || f == "index.html"
  }

  const Header := "<h1>Quickshare File Server</h1>\n"
  const NoShares := "<p>No shares on this server</p>\n"
  const Footer := "</ul></p>\n"
  const NotFoundBody := "Object not found"

  /** The introduction of the list, with the number of shares written in decimal. */
  function Intro(n: nat): string {
    "<p>" + Decimal(n) + " share(s) on this server:\n<ul>\n"
  }

  /** The list entry of one share: a relative link to its name. */
  function Item(s: Share): string {
    "<li><a href=\"" + s.name + "\">" + s.name + "</a></li>\n"
  }

  /** The list entries of all shares, in registry order. */
  function Items(shares: seq<Share>): string
    decreases |shares|
  {
    if shares == [] then "" else Items(shares[..|shares| - 1]) + Item(shares[|shares| - 1])
  }

  /** The entries of two lists one after the other are the entries of the joined list. */
  lemma {:induction false} ItemsConcat(a: seq<Share>, b: seq<Share>)
    ensures Items(a + b) == Items(a) + Items(b)
    decreases |b|
  {
    if b == [] {
      assert a + b == a;
    } else {
      var c, last := b[..|b| - 1], b[|b| - 1];
      DropLastConcat(a, b);
      assert (a + b)[|a + b| - 1] == last;
      assert Items(a + b) == Items(a + c) + Item(last);
      ItemsConcat(a, c);
      assert Items(b) == Items(c) + Item(last);
      ConcatAssoc(Items(a), Items(c), Item(last));
    }
  }

  /** Share `k`'s entry sits between the entries of the shares before it and those after. */
  lemma ItemsAt(shares: seq<Share>, k: nat)
    requires k < |shares|
    ensures Items(shares) == Items(shares[..k]) + Item(shares[k]) + Items(shares[k + 1..])
  {
    var upto := shares[..k + 1];
    assert shares == upto + shares[k + 1..];
    ItemsConcat(upto, shares[k + 1..]);
    TakeTake(shares, k, k + 1);
  }

  /** The index page: a title, then either a note that there is nothing, or the number of
      shares and a link to each. */
  function IndexPage(shares: seq<Share>): string {
    if shares == [] then Header + NoShares
    else Header + Intro(|shares|) + Items(shares) + Footer
  }

  /** Every index page starts with the title, and it says there are no shares exactly when
      the registry is empty. */
  lemma IndexPageShape(shares: seq<Share>)
    ensures HasPrefix(IndexPage(shares), Header)
    ensures IndexPage(shares) == Header + NoShares <==> shares == []
  {
    var html := IndexPage(shares);
    if shares == [] {
      assert html[..|Header|] == Header;
    } else {
      var intro, rest := Intro(|shares|), Items(shares) + Footer;
      assert html == Header + intro + rest by {
        ConcatAssoc(Header + intro, Items(shares), Footer);
      }
      assert html[..|Header|] == Header by {
        SliceLeft(Header, intro + rest, 0, |Header|);
        ConcatAssoc(Header, intro, rest);
      }
      var d := Decimal(|shares|);
      assert html[|Header| + 3] == d[0] by {
        CharAt(Header, intro, rest, 3);
        CharAt("<p>", d, " share(s) on this server:\n<ul>\n", 0);
      }
      assert (Header + NoShares)[|Header| + 3] == 'N';
    }
  }

  /** A non-empty index page states how many shares there are: the digits right after the
      title and "<p>" read back as the registry's length. */
  lemma IndexShowsCount(shares: seq<Share>) returns (digits: string)
    requires shares != []
    ensures IsDigits(digits) && DigitsValue(digits) == |shares|
    ensures var p := |Header| + 3;
            p + |digits| <= |IndexPage(shares)| && IndexPage(shares)[p..p + |digits|] == digits
  {
    digits := Decimal(|shares|);
    DecimalRoundTrip(|shares|);
    var intro := Intro(|shares|);
    var head := Header + intro;
    var p, q := |Header| + 3, |Header| + 3 + |digits|;
    SliceLeft(head + Items(shares), Footer, p, q);
    SliceLeft(head, Items(shares), p, q);
    SliceRight(Header, intro, 3, 3 + |digits|);
    var lead := "<p>" + digits;
    SliceLeft(lead, " share(s) on this server:\n<ul>\n", 3, 3 + |digits|);
    SliceRight("<p>", digits, 0, |digits|);
    assert digits[0..|digits|] == digits;
  }

  /** Every share has its entry on the index page, between the entries of the shares
      before it and those of the shares after it in the registry. */
  lemma IndexShowsShare(shares: seq<Share>, k: nat)
    requires k < |shares|
    ensures IndexPage(shares)
            == Header + Intro(|shares|) + Items(shares[..k]) + Item(shares[k])
               + Items(shares[k + 1..]) + Footer
  {
    var head := Header + Intro(|shares|);
    var before, item, after := Items(shares[..k]), Item(shares[k]), Items(shares[k + 1..]);
    assert IndexPage(shares) == head + (before + item + after) + Footer by {
      ItemsAt(shares, k);
    }
    assert head + (before + item + after) == head + before + item + after by {
      ConcatAssoc(head, before + item, after);
      ConcatAssoc(head, before, item);
    }
  }

  /** What the handler sends back: a page, a share's file, or the 404 answer. */
  datatype Response = Page(html: string) | Download(share: Share) | NotFound

  /** The HTTP status of a response (sendFile's own failures are not modelled). */
  function Status(r: Response): int {
    if r.NotFound? then 404 else 200
  }

  /** The body of a response that is not a file download. */
  function Body(r: Response): string
    requires !r.Download?
  {
    if r.Page? then r.html else NotFoundBody
  }

  /** A name that is neither the index nor a share is answered with status 404 and the body
      "Object not found"; every other request is answered with status 200. */
  lemma NotFoundAnswer(uri: string, shares: seq<Share>)
    ensures var r := Resolve(uri, shares);
            (Status(r) == 404 <==> !IsIndexName(GetHttpFilename(uri))
                                   && !HasName(shares, GetHttpFilename(uri)))
            && (Status(r) != 404 ==> Status(r) == 200)
            && (Status(r) == 404 ==> Body(r) == NotFoundBody)
  {
  }

  /** httpHandler's choice: the index for "" and "index.html", the first share of the
      requested name, or 404. */
  function Resolve(uri: string, shares: seq<Share>): (r: Response)
    ensures r.Page? <==> IsIndexName(GetHttpFilename(uri))
    ensures r.Page? ==> r.html == IndexPage(shares)
    ensures r.Download? ==> r.share in shares && r.share.name == GetHttpFilename(uri)
    ensures r.Download? ==> r.share == Lookup(shares, GetHttpFilename(uri))
    ensures r.NotFound? <==> !IsIndexName(GetHttpFilename(uri)) && !HasName(shares, GetHttpFilename(uri))
  {
    var f := GetHttpFilename(uri);
    if IsIndexName(f) then Page(IndexPage(shares))
    else
      var s := Lookup(shares, f);
      if s.name == "" then NotFound else Download(s)
  }

  /** Following the link of a share on the index page downloads that share, provided the
      registry has no duplicate names and the name does not collide with the index page. */
  lemma LinkDownloads(shares: seq<Share>, k: nat)
    requires Unique(shares) && k < |shares| && !IsIndexName(shares[k].name)
    ensures Resolve("/" + shares[k].name, shares) == Download(shares[k])
  {
    GetHttpFilenameOfPath(shares[k].name);
    LookupUnique(shares, shares[k].name, k);
  }

  /** A share named "index.html" can never be downloaded: that name always gets the index. */
  lemma IndexShadows(uri: string, shares: seq<Share>)
    ensures forall s :: Resolve(uri, shares) == Download(s) ==> !IsIndexName(s.name)
  {
  }

  /** One more entry on a page under construction. */
  lemma ItemsStep(start: string, shares: seq<Share>, k: nat)
    requires k < |shares|
    ensures start + Items(shares[..k]) + Item(shares[k]) == start + Items(shares[..k + 1])
  {
    assert shares[..k + 1][..k] == shares[..k];
    ConcatAssoc(start, Items(shares[..k]), Item(shares[k]));
  }

  /** httpHandler's index branch: the title, then the count and one entry per share written
      in a loop, or the note that there is nothing. */
  method RenderIndex(reg: Registry) returns (html: string)
    ensures html == IndexPage(reg.shares)
  {
    html := Header;
    if |reg.shares| == 0 {
      html := html + NoShares;
      return;
    }
    html := html + Intro(|reg.shares|);
    ghost var start := html;
    for k := 0 to |reg.shares|
      invariant html == start + Items(reg.shares[..k])
    {
      ItemsStep(start, reg.shares, k);
      html := html + Item(reg.shares[k]);
    }
    assert reg.shares[..|reg.shares|] == reg.shares;
    html := html + Footer;
  }

  /** httpHandler: the index page, or the share looked up by name, or 404. */
  method HandleRequest(reg: Registry, uri: string) returns (resp: Response)
    ensures resp == Resolve(uri, reg.shares)
  {
    var filename := GetHttpFilename(uri);
    if filename == "" || filename == "index.html" {
      var html := RenderIndex(reg);
      return Page(html);
    }
    var share := reg.GetShare(filename);
    if share.name == "" {
      return NotFound;
    }
    return Download(share);
  }
}
