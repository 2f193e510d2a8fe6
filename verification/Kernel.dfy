/**
 The kernel as the server sees it: a set of open descriptors and, for reasoning only, the sequence
 of calls made so far.  Numbers handed out by `open` are arbitrary, as long as they are not in use.
 */
module Kernel {

  datatype Call =
    | Opened(fd: int)
    | Closed(fd: int, hit: bool)  // `hit`: the number was an open descriptor
    | Parsed(reading: Reading)    // a text received on a connection was handed to the request parser
    | Sent(response: Response)    // `send` was called with a response header

  datatype Reading = Reading(fd: int, text: string)

  datatype Response = Response(fd: int, status: int)

  /** The directory that is served, and which files can be read. */
  datatype Files = Files(home: string, readable: string -> bool)

  class Descriptors {
    const files: Files
    var open: set<int>
    ghost var calls: seq<Call>
    ghost var accepted: seq<int>     // the connections that `accept` returned, in order
    ghost var begun: seq<int>        // the connections that were handled, in order
    ghost var parsed: seq<Reading>   // what was handed to the request parser, in order
    ghost var sent: seq<Response>    // the response headers that `send` was called with, in order
    ghost var fetched: seq<string>    // the files that were opened, in order

    constructor (files: Files, initial: set<int>)
      ensures this.files == files && open == initial
      ensures calls == [] && accepted == [] && begun == [] && parsed == [] && sent == [] && fetched == []
    {
      this.files, open := files, initial;
      calls, accepted, begun, parsed, sent, fetched := [], [], [], [], [], [];
    }

    /** `close`: on a number that is not open it fails with EBADF, which no caller looks at. */
    method Close(fd: int)
      modifies this`open, this`calls
      ensures open == old(open) - {fd}
      ensures calls == old(calls) + [Closed(fd, fd in old(open))]
    {
      calls := calls + [Closed(fd, fd in open)];
      open := open - {fd};
    }

    /** Not system calls, but part of the record: the handling of a connection begins, a text is parsed. */
    ghost method NoteBegun(fd: int)
      modifies this`begun
      ensures begun == old(begun) + [fd]
    {
      begun := begun + [fd];
    }

    ghost method NoteParsed(reading: Reading)
      modifies this`calls, this`parsed
      ensures calls == old(calls) + [Parsed(reading)] && parsed == old(parsed) + [reading]
    {
      calls, parsed := calls + [Parsed(reading)], parsed + [reading];
    }

    /** `send` of a response header; whether it succeeds is up to the network. */
    method Send(fd: int, status: int) returns (ok: bool)
      modifies this`calls, this`sent
      ensures calls == old(calls) + [Sent(Response(fd, status))] && sent == old(sent) + [Response(fd, status)]
    {
      calls, sent := calls + [Sent(Response(fd, status))], sent + [Response(fd, status)];
      ok := *;
    }

    /** `fcntl(fd, F_GETFD) != -1` */
    method IsOpen(fd: int) returns (yes: bool)
      ensures yes == (fd in open)
    {
      yes := fd in open;
    }

    /** A successful `accept`. */
    method Accept() returns (fd: int)
      modifies this`open, this`calls, this`accepted
      ensures fd > 0 && fd !in old(open)
      ensures open == old(open) + {fd}
      ensures calls == old(calls) + [Opened(fd)] && accepted == old(accepted) + [fd]
    {
      fd := Open();
      accepted := accepted + [fd];
    }

    /** A successful `open` of a file that can be read. */
    method OpenFile(name: string) returns (fd: int)
      requires files.readable(name)
      modifies this`open, this`calls, this`fetched
      ensures fd > 0 && fd !in old(open)
      ensures open == old(open) + {fd}
      ensures calls == old(calls) + [Opened(fd)] && fetched == old(fetched) + [name]
    {
      fd := Open();
      fetched := fetched + [name];
    }

    /** The number that a successful `open` or `accept` returns. */
    method Open() returns (fd: int)
      modifies this`open, this`calls
      ensures fd > 0 && fd !in old(open)
      ensures open == old(open) + {fd}
      ensures calls == old(calls) + [Opened(fd)]
    {
      UnusedNumber(open);
      fd :| fd > 0 && fd !in open;
      open := open + {fd};
      calls := calls + [Opened(fd)];
    }
  }

  lemma UnusedNumber(used: set<int>)
    ensures exists n :: n > 0 && n !in used
  {
    var top := Above(used);
    assert top !in used;
  }

  lemma Above(used: set<int>) returns (top: int)
    ensures top > 0 && forall fd :: fd in used ==> fd < top
  {
    if fd :| fd in used {
      top := Above(used - {fd});
      assert used == used - {fd} + {fd};
      top := if fd < top then top else fd + 1;
    } else {
      top := 1;
    }
  }
}
