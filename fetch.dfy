/**
  Downloading one book: `download_gutenberg`.

  The network is a parameter: `server.Get(url)` is the reply a GET of `url` (with
  redirects followed) produces, or `Unreachable` when `requests.get` raises.
  The fetcher walks the candidate locations in order, skips a 404, an error
  status, an unreachable location and a whitespace-only body, and accepts the
  first that remains. With no acceptable candidate it returns the fixed
  sentinel text. While it walks, the module logger is forced to ERROR; on both
  exits the level it had on entry is put back.
 */
module Fetch {
  import opened Wrappers
  import opened Text
  import Urls

  /** What the fetcher returns in place of a book it could not get. */
  const Sentinel: string := "Unable to download file"

  /** The numeric levels of Python's `logging` module. */
  const NotSet: int := 0
  const Debug: int := 10
  const Info: int := 20
  const Warning: int := 30
  const Error: int := 40

  /** The outcome of one GET. `text` is the body decoded as text by the transport
      layer, `contentType` the Content-Type header ("" when absent) and, for an
      archive body, `entries` holds the decoded text of each archive member in
      archive order (only the count and the first are ever used). */
  datatype Reply =
    | Unreachable
    | Reply(status: int, text: string, contentType: string, entries: seq<string>)

  /** A mocked network: the reply of each listed location, and the one reply
      every other location gives. */
  datatype Server = Server(replies: map<string, Reply>, otherwise: Reply)
  {
    /** The reply a GET of `url` produces. */
    function Get(url: string): Reply
    {
      if url in replies then replies[url] else otherwise
    }
  }

  /** The last-resort location `https://www.gutenberg.org/cache/epub/{id}/pg{id}.txt`. */
  function CacheUrl(id: string): string
  {
    "https://www.gutenberg.org/cache/epub/" + id + "/pg" + id + ".txt"
  }

  /** Every location tried for `id`: the default mirror's candidates, then the cache location. */
  function Candidates(id: string): (urls: seq<string>)
    ensures |urls| == 7
  {
    Urls.GutenbergTextUrls(id, Urls.GutenbergMirror, Urls.DefaultSuffixes) + [CacheUrl(id)]
  }

  /** `raise_for_status()` raises for a client (4xx) or server (5xx) error. */
  predicate RaisesForStatus(status: int)
  {
    400 <= status < 600
  }

  /** A reply the loop accepts: it arrived, is neither 404 nor any other error
      status, and its body is not whitespace only. */
  predicate Usable(r: Reply)
  {
    r.Reply? && r.status != 404 && !RaisesForStatus(r.status) && !IsBlank(r.text)
  }

  /** The index of the first location, from `i` on, whose reply is usable. */
  function FirstUsableFrom(urls: seq<string>, server: Server, i: nat): (k: Option<nat>)
    requires i <= |urls|
    ensures k.Some? ==> i <= k.value < |urls| && Usable(server.Get(urls[k.value]))
    ensures k.Some? ==> forall j :: i <= j < k.value ==> !Usable(server.Get(urls[j]))
    ensures k.None? <==> forall j :: i <= j < |urls| ==> !Usable(server.Get(urls[j]))
    decreases |urls| - i
  {
    if i == |urls| then None
    else if Usable(server.Get(urls[i])) then Some(i)
    else FirstUsableFrom(urls, server, i + 1)
  }

  /** The location the fetch loop stops at, if any. */
  function FirstUsable(urls: seq<string>, server: Server): (k: Option<nat>)
    ensures k.Some? ==> k.value < |urls| && Usable(server.Get(urls[k.value]))
    ensures k.Some? ==> forall j :: 0 <= j < k.value ==> !Usable(server.Get(urls[j]))
    ensures k.None? <==> forall j :: 0 <= j < |urls| ==> !Usable(server.Get(urls[j]))
  {
    FirstUsableFrom(urls, server, 0)
  }

  /** What an accepted reply yields: for an archive (Content-Type containing
      `application/zip`) the text of its single member, or the sentinel when
      it does not hold exactly one; otherwise the body text. */
  function Unpack(r: Reply): string
    requires r.Reply?
  {
    if Contains(r.contentType, "application/zip") then
      if |r.entries| != 1 then Sentinel else r.entries[0]
    else
      r.text
  }

  /** What the fetch loop over `urls` returns: the sentinel when no reply is
      usable, else the unpacked first usable reply. */
  function Fetched(urls: seq<string>, server: Server): string
  {
    match FirstUsable(urls, server)
    case None => Sentinel
    case Some(k) => Unpack(server.Get(urls[k]))
  }

  /** The locations the fetch loop over `urls` requests, in request order. */
  function Tried(urls: seq<string>, server: Server): seq<string>
  {
    match FirstUsable(urls, server)
    case None => urls
    case Some(k) => urls[..k + 1]
  }

  /** The result of `download_gutenberg(id)` against `server`. */
  function Download(id: string, server: Server): string
  {
    Fetched(Candidates(id), server)
  }

  /** The locations `download_gutenberg(id)` requests, in request order. */
  function Requested(id: string, server: Server): seq<string>
  {
    Tried(Candidates(id), server)
  }

  /** The logger `download_gutenberg` silences. Its own level may be NOTSET, in
      which case its effective level is the one it inherits from its ancestors,
      which this code never changes. */
  class Logger {
    var level: int
    const inherited: int

    constructor (level: int, inherited: int)
      ensures this.level == level && this.inherited == inherited
    {
      this.level := level;
      this.inherited := inherited;
    }

    /** `getEffectiveLevel()`. */
    function EffectiveLevel(): int
      reads this
    {
      if level != NotSet then level else inherited
    }

    /** `setLevel(l)`. */
    method SetLevel(l: int)
      modifies this
      ensures level == l
    {
      level := l;
    }
  }

  /** The `for ... else` loop of `download_gutenberg` over `urls`: it stops at
      the first usable reply and returns its index, or `None` once every
      location has been tried. It also returns the locations requested, in
      order, and the logger's effective level at each request. */
  method TryCandidates(urls: seq<string>, server: Server, logger: Logger)
    returns (accepted: Option<nat>, requested: seq<string>, levels: seq<int>)
    ensures accepted == FirstUsable(urls, server)
    ensures requested == Tried(urls, server)
    ensures |levels| == |requested| && forall k :: 0 <= k < |levels| ==> levels[k] == logger.EffectiveLevel()
  {
    requested, levels := [], [];
    accepted := None;
    var i := 0;
    while i < |urls|
      invariant 0 <= i <= |urls|
      invariant requested == urls[..i]
      invariant |levels| == i && forall k :: 0 <= k < i ==> levels[k] == logger.EffectiveLevel()
      invariant forall j :: 0 <= j < i ==> !Usable(server.Get(urls[j]))
      invariant accepted.None?
    {
      var r := server.Get(urls[i]);
      requested, levels := requested + [urls[i]], levels + [logger.EffectiveLevel()];
      if r.Unreachable? {
        // requests.get raised: logged at ERROR, next location
        i := i + 1;
        continue;
      }
      if r.status == 404 {
        // expected miss: logged at DEBUG only, next location
        i := i + 1;
        continue;
      }
      if RaisesForStatus(r.status) {
        // raise_for_status() raised: logged at ERROR, next location
        i := i + 1;
        continue;
      }
      if IsBlank(r.text) {
        // empty body: logged at DEBUG only, next location
        i := i + 1;
        continue;
      }
      accepted := Some(i);
      break;
    }
    if accepted.Some? {
      assert requested == urls[..i + 1];
    }
  }

  /** `download_gutenberg(id)`: silence the logger, try the candidates, put the
      logger's level back, then unpack the accepted reply. */
  method DownloadGutenberg(id: string, server: Server, logger: Logger)
    returns (text: string, requested: seq<string>, levels: seq<int>)
    modifies logger
    ensures text == Download(id, server)
    ensures requested == Requested(id, server)
    ensures |levels| == |requested| && forall k :: 0 <= k < |levels| ==> levels[k] == Error
    ensures logger.level == old(logger.EffectiveLevel())
    ensures logger.EffectiveLevel() == old(logger.EffectiveLevel())
  {
    var urls := Candidates(id);
    var previous := logger.EffectiveLevel();
    logger.SetLevel(Error);
    var accepted;
    accepted, requested, levels := TryCandidates(urls, server, logger);
    if accepted.None? {
      logger.SetLevel(previous);
      return Sentinel, requested, levels;
    }
    logger.SetLevel(previous);
    text := Unpack(server.Get(urls[accepted.value]));
  }

  /** Every candidate skipped: the result is the sentinel and every candidate,
      in order, was requested. */
  lemma AllSkipped(id: string, server: Server)
    requires forall j :: 0 <= j < |Candidates(id)| ==> !Usable(server.Get(Candidates(id)[j]))
    ensures Download(id, server) == Sentinel
    ensures Requested(id, server) == Candidates(id)
  {
  }

  /** A server that answers 404 everywhere: the sentinel after exactly seven requests. */
  lemma AllNotFound(id: string, server: Server)
    requires forall u :: server.Get(u).Reply? && server.Get(u).status == 404
    ensures Download(id, server) == Sentinel
    ensures |Requested(id, server)| == 7
    ensures Requested(id, server) == Candidates(id)
  {
    AllSkipped(id, server);
  }

  /** An accepted candidate: every earlier one was skipped, it was the last one
      requested, and the result is its unpacked text. */
  lemma AcceptedIsFirstUsable(id: string, server: Server, k: nat)
    requires k < |Candidates(id)| && Usable(server.Get(Candidates(id)[k]))
    requires forall j :: 0 <= j < k ==> !Usable(server.Get(Candidates(id)[j]))
    ensures Requested(id, server) == Candidates(id)[..k + 1]
    ensures Download(id, server) == Unpack(server.Get(Candidates(id)[k]))
  {
    hide Candidates;
    assert FirstUsable(Candidates(id), server) == Some(k);
  }

  /** An accepted archive that does not hold exactly one member gives the
      sentinel, whatever its members say. */
  lemma AmbiguousArchive(id: string, server: Server, k: nat)
    requires k < |Candidates(id)| && Usable(server.Get(Candidates(id)[k]))
    requires forall j :: 0 <= j < k ==> !Usable(server.Get(Candidates(id)[j]))
    requires Contains(server.Get(Candidates(id)[k]).contentType, "application/zip")
    requires |server.Get(Candidates(id)[k]).entries| != 1
    ensures Download(id, server) == Sentinel
  {
    AcceptedIsFirstUsable(id, server, k);
  }

  /** An accepted archive holding a single member gives that member's text; an
      accepted reply of any other type gives its body. */
  lemma AcceptedReplyText(id: string, server: Server, k: nat)
    requires k < |Candidates(id)| && Usable(server.Get(Candidates(id)[k]))
    requires forall j :: 0 <= j < k ==> !Usable(server.Get(Candidates(id)[j]))
    ensures var r := server.Get(Candidates(id)[k]);
            Contains(r.contentType, "application/zip") && |r.entries| == 1 ==>
              Download(id, server) == r.entries[0]
    ensures var r := server.Get(Candidates(id)[k]);
            !Contains(r.contentType, "application/zip") ==> Download(id, server) == r.text
  {
    AcceptedIsFirstUsable(id, server, k);
  }

  /** A blank result can only come from an accepted archive: the sentinel is
      not blank and a plain-text reply with a blank body is never accepted. */
  lemma BlankOnlyFromArchive(id: string, server: Server)
    ensures IsBlank(Download(id, server)) ==>
              && FirstUsable(Candidates(id), server).Some?
              && Contains(server.Get(Candidates(id)[FirstUsable(Candidates(id), server).value]).contentType,
                          "application/zip")
  {
    if IsBlank(Download(id, server)) {
      assert !IsSpace(Sentinel[0]);
    }
  }
}
