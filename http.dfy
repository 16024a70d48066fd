/**
 * What the downloaders see of HTTP and of the clock, and the trace a download leaves:
 * the GETs it issued, the back-off sleeps it took and the file operations it performed.
 */
module Http {
  import opened Wrappers
  import opened Text
  import opened Files

  /** A response as the client library delivers it. */
  datatype Response = Response(
    status: int,
    contentType: string,           // `headers.get("content-type", "")`
    contentDisposition: bool,      // whether a Content-Disposition header is present
    lengthMalformed: bool,         // a Content-Length header that `int()` cannot parse
    cookies: seq<(string, string)>, // `response.cookies.items()`, in jar order
    body: seq<seq<byte>>,          // the chunks `iter_content` yields
    interrupted: bool)             // the body stream raises after those chunks

  /** The result of issuing one request: a response, or a transport-level exception. */
  datatype Outcome = Answer(response: Response) | Timeout | ConnectionError

  /** The remote side: the outcome of the GET of `url` issued at attempt `n`. */
  type Net = (string, nat) -> Outcome

  /** A reading of the clock: the `%Y%m%d_%H%M%S` stamp and `int(time.time())`. */
  datatype Clock = Clock(stamp: string, epoch: nat)

  /** The clock reading taken at attempt `n` of a download of `url`. */
  type Clocks = (string, nat) -> Clock

  /** The back-off `time.sleep(2 ** attempt + random.uniform(jitterLo, jitterHi))`. */
  datatype Sleep = Sleep(attempt: nat, jitterLo: nat, jitterHi: nat)

  function Pow2(n: nat): (r: nat)
    ensures r >= 1
  {
    if n == 0 then 1 else 2 * Pow2(n - 1)
  }

  /** The back-offs of `n` attempts in a row from attempt `from`, each with jitter in [lo, hi]. */
  function Backoffs(from: nat, n: nat, lo: nat, hi: nat): seq<Sleep>
    decreases n
  {
    if n == 0 then [] else [Sleep(from, lo, hi)] + Backoffs(from + 1, n - 1, lo, hi)
  }

  /** Back-offs at strictly increasing attempts in [lo, hi), each with jitter [1,3] or [1,5]. */
  predicate Scheduled(ss: seq<Sleep>, lo: nat, hi: int) {
    && (forall j :: 0 <= j < |ss| ==> lo <= ss[j].attempt < hi && ss[j].jitterLo == 1 && ss[j].jitterHi in {3, 5})
    && (forall i, j :: 0 <= i < j < |ss| ==> ss[i].attempt < ss[j].attempt)
  }

  /** A back-off at `lo` followed by a schedule from `lo + 1` is a schedule from `lo`. */
  lemma ScheduledCons(s: Sleep, rest: seq<Sleep>, lo: nat, hi: int)
    requires Scheduled(rest, lo + 1, hi)
    requires s.attempt == lo < hi && s.jitterLo == 1 && s.jitterHi in {3, 5}
    ensures Scheduled([s] + rest, lo, hi)
  {
    var all := [s] + rest;
    forall i, j | 0 <= i < j < |all|
      ensures all[i].attempt < all[j].attempt
    {
      assert all[j] == rest[j - 1];
      if i > 0 {
        assert all[i] == rest[i - 1];
      }
    }
  }

  /** The least number of seconds a sleep can last. */
  function MinWait(s: Sleep): nat {
    Pow2(s.attempt) + s.jitterLo
  }

  /** The most seconds a sleep can last. */
  function MaxWait(s: Sleep): nat {
    Pow2(s.attempt) + s.jitterHi
  }

  /** The bytes written when every chunk is written in order (empty chunks add nothing). */
  function Concat(chunks: seq<seq<byte>>): seq<byte> {
    if chunks == [] then [] else Concat(chunks[..|chunks| - 1]) + chunks[|chunks| - 1]
  }

  /** What one call of a downloader did and returned. */
  datatype Trace = Trace(
    result: Option<string>,     // the saved path (the found URL, for a page fetch), or None
    requested: seq<string>,     // URLs of the GETs issued, in order
    sleeps: seq<Sleep>,         // back-off sleeps, in order
    ops: seq<FileOp>)           // file operations, in order

  /** What one attempt did before the loop either returned or went on. */
  datatype Step = Step(requested: seq<string>, sleep: Option<Sleep>, ops: seq<FileOp>)

  function SleepsOf(s: Step): seq<Sleep> {
    if s.sleep.Some? then [s.sleep.value] else []
  }

  /** The trace of an attempt that ended the call with `result`. */
  function Finish(s: Step, result: Option<string>): Trace {
    Trace(result, s.requested, SleepsOf(s), s.ops)
  }

  /** The trace of an attempt followed by the rest of the loop. */
  function Then(s: Step, rest: Trace): Trace {
    Trace(rest.result, s.requested + rest.requested, SleepsOf(s) + rest.sleeps, s.ops + rest.ops)
  }

  /** The trace of a loop that ran out of attempts. */
  const GiveUp := Trace(None, [], [], [])

  /** What has been done so far, followed by the trace of the rest of the loop. */
  function Prepend(requested: seq<string>, sleeps: seq<Sleep>, ops: seq<FileOp>, t: Trace): Trace {
    Trace(t.result, requested + t.requested, sleeps + t.sleeps, ops + t.ops)
  }

  /** Doing one more attempt moves its step from the rest of the loop into what has been done. */
  lemma PrependThen(requested: seq<string>, sleeps: seq<Sleep>, ops: seq<FileOp>, s: Step, rest: Trace)
    ensures Prepend(requested, sleeps, ops, Then(s, rest))
         == Prepend(requested + s.requested, sleeps + SleepsOf(s), ops + s.ops, rest)
  {
    assert requested + (s.requested + rest.requested) == requested + s.requested + rest.requested;
    assert sleeps + (SleepsOf(s) + rest.sleeps) == sleeps + SleepsOf(s) + rest.sleeps;
    assert ops + (s.ops + rest.ops) == ops + s.ops + rest.ops;
  }

  lemma PrependFinish(requested: seq<string>, sleeps: seq<Sleep>, ops: seq<FileOp>, s: Step, result: Option<string>)
    ensures Prepend(requested, sleeps, ops, Finish(s, result))
         == Trace(result, requested + s.requested, sleeps + SleepsOf(s), ops + s.ops)
  {
  }

  lemma PrependGiveUp(requested: seq<string>, sleeps: seq<Sleep>, ops: seq<FileOp>)
    ensures Prepend(requested, sleeps, ops, GiveUp) == Trace(None, requested, sleeps, ops)
  {
    assert requested + [] == requested && sleeps + [] == sleeps && ops + [] == ops;
  }

  /** `url.split("/")[-1].split("?")[0]`: the last path segment without its query. */
  function UrlBasename(url: string): (r: string)
    ensures '/' !in r && '?' !in r
  {
    var seg := AfterLast(url, '/');
    AfterLastShape(url, '/');
    var r := BeforeFirst(seg, '?');
    assert forall i :: 0 <= i < |r| ==> r[i] == seg[i];
    r
  }

  /** `basename or f"file_{int(time.time())}"`: the URL's base name, or `file_<epoch>` when it is empty. */
  function FileBase(url: string, clock: Clock): (r: string)
    ensures '/' !in r && r != []
  {
    var b := UrlBasename(url);
    if b == [] then "file_" + NatToString(clock.epoch) else b
  }

  /** How an attempt ends: the call returns `result`, or the loop goes on. */
  datatype Decision = Return(result: Option<string>) | Continue
}
