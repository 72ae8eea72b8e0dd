/** The transport the client borrows: Arduino's `Client` (connect, print,
    println, available, read, connected, flush, stop), reduced to a scripted
    object. What the peer sends is a finite script of poll events; what the
    client writes is appended to an output log. */
module Arduino {
  import opened Octets

  /** What happens while the client waits between two polls: a chunk of
      bytes arrives (possibly none), or the peer hangs up. */
  datatype Event = Arrive(bytes: seq<Octet>) | Hangup

  /** Teardown calls, recorded in the order they are made. */
  datatype Call = Flushed | Stopped

  /** The bytes a script delivers before its first hang-up. */
  function Flatten(script: seq<Event>): (s: seq<Octet>)
    ensures script != [] && script[0].Arrive? ==> s == script[0].bytes + Flatten(script[1..])
    ensures script != [] && script[0].Hangup? ==> s == []
  {
    if script == [] then []
    else match script[0]
      case Hangup => []
      case Arrive(bytes) => bytes + Flatten(script[1..])
  }

  class Client {
    /** The answer `connect` will give. */
    var connectOk: bool
    /** What `connected()` answers. */
    var linkUp: bool
    /** Received bytes not yet read: `available()` is true while there are some. */
    var pending: seq<Octet>
    /** The poll events still to come. */
    var script: seq<Event>
    /** Everything written with `print` and `println`. */
    var log: string
    /** Every byte handed out by `read`, in order. */
    var consumed: seq<Octet>
    /** Every `flush` and `stop`, in order. */
    var calls: seq<Call>

    /** The bytes `read` can still hand out before the link is seen to be down. */
    function Incoming(): seq<Octet>
      reads this
    {
      pending + (if linkUp then Flatten(script) else [])
    }

    /** How many more waits can change anything. */
    function Remaining(): nat
      reads this
    {
      |script| + (if linkUp then 1 else 0)
    }

    constructor (connectOk: bool, pending: seq<Octet>, script: seq<Event>)
      ensures this.connectOk == connectOk && this.pending == pending && this.script == script
      ensures !linkUp && log == [] && consumed == [] && calls == []
    {
      this.connectOk := connectOk;
      this.linkUp := false;
      this.pending := pending;
      this.script := script;
      this.log := [];
      this.consumed := [];
      this.calls := [];
    }

    method Connect(host: seq<Octet>, port: int) returns (ok: bool)
      modifies this`linkUp
      ensures ok == connectOk && linkUp == ok
    {
      ok := connectOk;
      linkUp := ok;
    }

    /** `print` of a string or a character. */
    method Print(s: string)
      modifies this`log
      ensures log == old(log) + s
    {
      log := log + s;
    }

    /** `println`: the text, then CR LF. */
    method Println(s: string)
      modifies this`log
      ensures log == old(log) + s + "\r\n"
    {
      log := log + s + "\r\n";
    }

    /** `print(int)`: the decimal rendering of the number. */
    method PrintInt(n: int)
      modifies this`log
      ensures log == old(log) + IntToDecimal(n)
    {
      log := log + IntToDecimal(n);
    }

    method Available() returns (b: bool)
      ensures b <==> pending != []
    {
      b := pending != [];
    }

    method Read() returns (c: Octet)
      requires pending != []
      modifies this`pending, this`consumed
      ensures c == old(pending)[0] && pending == old(pending)[1..]
      ensures consumed == old(consumed) + [c]
    {
      c := pending[0];
      pending := pending[1..];
      consumed := consumed + [c];
    }

    method Connected() returns (b: bool)
      ensures b == linkUp
    {
      b := linkUp;
    }

    /** `delay(1000)`: time passes and the next poll event takes effect. An
        exhausted script means the peer has gone away. Nothing arrives on a
        link that is down. */
    method Wait()
      modifies this`pending, this`script, this`linkUp
      ensures !old(linkUp) ==> pending == old(pending) && script == old(script) && !linkUp
      ensures old(linkUp) && old(script) == [] ==> pending == old(pending) && script == [] && !linkUp
      ensures old(linkUp) && old(script) != [] ==>
        script == old(script)[1..] &&
        match old(script)[0]
        case Arrive(bytes) => pending == old(pending) + bytes && linkUp
        case Hangup => pending == old(pending) && !linkUp
      ensures Incoming() == old(Incoming())
      ensures old(linkUp) ==> Remaining() < old(Remaining())
    {
      if linkUp {
        if script == [] {
          linkUp := false;
        } else {
          if script[0].Arrive? {
            pending := pending + script[0].bytes;
          } else {
            linkUp := false;
          }
          script := script[1..];
        }
      }
    }

    /** `flush`: unread input is discarded. */
    method Flush()
      modifies this`pending, this`calls
      ensures pending == [] && calls == old(calls) + [Flushed]
    {
      pending := [];
      calls := calls + [Flushed];
    }

    /** `stop`: the connection is closed, with whatever it still had to deliver. */
    method Stop()
      modifies this`linkUp, this`script, this`calls
      ensures !linkUp && script == [] && calls == old(calls) + [Stopped]
    {
      linkUp := false;
      script := [];
      calls := calls + [Stopped];
    }
  }
}
