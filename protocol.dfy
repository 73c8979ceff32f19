/** What a worker does with one result of `conn.recv` while it serves a client
    (server.py, Worker.run and Worker.constructReply). The host address and the
    listening port come in as parameters: the address is the result of a name
    lookup, which is outside the model. */
module Protocol {
  import opened Text

  const KILL_FRAME: string := "KILL_SERVICE\n"
  const HELO_PREFIX: string := "HELO "
  /** The student number the reply carries, already rendered in decimal. */
  const STUDENT_ID: string := "16336617"

  /** The kinds of text a worker tells apart. */
  datatype Frame =
    | Kill                    // exactly KILL_SERVICE and a newline
    | Helo(payload: string)   // starts with "HELO "; payload is the rest, right-stripped
    | Closed                  // the empty read: the peer closed the connection
    | Ignored                 // anything else

  /** One outcome of a non-blocking `recv`: text, a connection reset, or any
      other socket error (on a non-blocking socket, "nothing to read yet"). */
  datatype Received = Data(text: string) | Reset | SocketError

  /** What the worker does next. */
  datatype Action =
    | Shutdown            // ask the whole pool to stop; this session ends with it
    | Send(reply: string) // send the reply and keep serving
    | EndSession          // close this connection and go back to the queue
    | KeepServing         // nothing to do; read again

  function Classify(data: string): (f: Frame)
    ensures f == Kill <==> data == KILL_FRAME
    ensures f.Helo? <==> HELO_PREFIX <= data
    ensures f.Helo? ==> f.payload == RStrip(data[|HELO_PREFIX|..])
    ensures f == Closed <==> data == ""
  {
    assert HELO_PREFIX[0] != KILL_FRAME[0];
    if data == KILL_FRAME then Kill
    else if HELO_PREFIX <= data then Helo(RStrip(data[|HELO_PREFIX|..]))
    else if data == "" then Closed
    else Ignored
  }

  /** The acknowledgement to a HELO: the echoed payload, the server's address,
      its port and the student number, each on its own line. */
  function HeloReply(payload: string, ip: string, port: nat): (reply: string)
  {
    HELO_PREFIX + payload + "\nIP:" + ip + "\nPort:" + Decimal(port) + "\nStudentID:" + STUDENT_ID + "\n"
  }

  /** When neither the payload nor the address holds a newline, the reply is
      exactly four lines followed by a final newline, and each field reads back. */
  lemma HeloReplyLines(payload: string, ip: string, port: nat)
    requires '\n' !in payload && '\n' !in ip
    ensures Lines(HeloReply(payload, ip, port))
         == [HELO_PREFIX + payload, "IP:" + ip, "Port:" + Decimal(port), "StudentID:" + STUDENT_ID, ""]
  {
    var l1, l2, l3, l4 := HELO_PREFIX + payload, "IP:" + ip, "Port:" + Decimal(port), "StudentID:" + STUDENT_ID;
    NoNewlineJoin(HELO_PREFIX, payload);
    NoNewlineJoin("IP:", ip);
    NoNewlineJoin("Port:", Decimal(port));
    NoNewlineJoin("StudentID:", STUDENT_ID);
    var t4 := l4 + "\n" + "";
    var t3 := l3 + "\n" + t4;
    var t2 := l2 + "\n" + t3;
    ReplyAsLines(payload, ip, port);
    LinesCons(l4, "");
    LinesCons(l3, t4);
    LinesCons(l2, t3);
    LinesCons(l1, t2);
  }

  lemma NoNewlineJoin(a: string, b: string)
    requires '\n' !in b
    requires forall i :: 0 <= i < |a| ==> a[i] != '\n'
    ensures '\n' !in a + b
  {
    forall i | 0 <= i < |a + b| ensures (a + b)[i] != '\n' {
      if i >= |a| { assert (a + b)[i] == b[i - |a|]; }
    }
  }

  lemma ReplyAsLines(payload: string, ip: string, port: nat)
    ensures HeloReply(payload, ip, port)
         == (HELO_PREFIX + payload) + "\n" + (("IP:" + ip) + "\n" + (("Port:" + Decimal(port)) + "\n"
            + (("StudentID:" + STUDENT_ID) + "\n" + "")))
  {
  }

  /** One pass through the body of the serving loop, given what `recv` produced. */
  function Respond(received: Received, ip: string, port: nat): (a: Action)
    ensures received == Data(KILL_FRAME) <==> a == Shutdown
    ensures a.Send? <==> received.Data? && HELO_PREFIX <= received.text
    ensures a.Send? ==> a.reply == HeloReply(RStrip(received.text[|HELO_PREFIX|..]), ip, port)
    ensures a == EndSession <==> received == Data("") || received == Reset
    ensures a == KeepServing <==>
              (received == SocketError
               || (received.Data? && received.text !in {KILL_FRAME, ""} && !(HELO_PREFIX <= received.text)))
  {
    match received
    case Data(text) =>
      (match Classify(text)
       case Kill => Shutdown
       case Helo(payload) => Send(HeloReply(payload, ip, port))
       case Closed => EndSession
       case Ignored => KeepServing)
    case Reset => EndSession
    case SocketError => KeepServing
  }

  /** A HELO reply echoes the payload without trailing whitespace, so a client
      that sends "HELO x" followed by any run of whitespace reads back "HELO x". */
  lemma HeloEchoesStrippedPayload(text: string, ws: string, ip: string, port: nat)
    requires text == [] || !IsSpace(text[|text| - 1])
    requires forall i :: 0 <= i < |ws| ==> IsSpace(ws[i])
    ensures Respond(Data(HELO_PREFIX + text + ws), ip, port) == Send(HeloReply(text, ip, port))
  {
    var data := HELO_PREFIX + text + ws;
    assert HELO_PREFIX <= data;
    assert data[|HELO_PREFIX|..] == text + ws;
    assert IsRightStripOf(text, text + ws) by {
      assert text <= text + ws;
      forall i | |text| <= i < |text + ws| ensures IsSpace((text + ws)[i]) {
        assert (text + ws)[i] == ws[i - |text|];
      }
    }
    RightStripUnique(RStrip(text + ws), text, text + ws);
  }

  /** The exchange the bundled test client performs: "HELO IMPRESSIVE_TEST\n"
      is answered with the payload echoed without its newline. */
  lemma TestClientHelo(ip: string, port: nat)
    ensures Respond(Data("HELO IMPRESSIVE_TEST\n"), ip, port) == Send(HeloReply("IMPRESSIVE_TEST", ip, port))
  {
    assert "HELO IMPRESSIVE_TEST\n" == HELO_PREFIX + "IMPRESSIVE_TEST" + "\n";
    HeloEchoesStrippedPayload("IMPRESSIVE_TEST", "\n", ip, port);
  }
}
