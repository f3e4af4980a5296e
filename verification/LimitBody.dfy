/** guardTransport's limit on a response body, read through a body that delivers its content in
    any chunks an io.Reader may. */
module LimitBody {
  import opened Numbers

  type Byte = bv8

  datatype ReadError = Ok | Eof | TooLarge | Broken

  /** How the body answers one Read: at most want bytes, an end of file as soon as nothing is left
      to deliver when eager, or a transport error after the bytes. */
  datatype Answer = Answer(want: nat, eager: bool, fails: bool)

  class Body {
    var rest: seq<Byte>

    constructor (content: seq<Byte>)
      ensures rest == content
    {
      rest := content;
    }

    /** io.Reader.Read into a buffer of the given size. */
    method Read(size: nat, answer: Answer) returns (p: seq<Byte>, err: ReadError)
      modifies this
      ensures |p| == Min(Min(answer.want, size), |old(rest)|) && old(rest) == p + rest
      ensures err == if answer.fails then Broken else if answer.eager && rest == [] then Eof else Ok
    {
      var n := Min(Min(answer.want, size), |rest|);
      p, rest := rest[..n], rest[n..];
      err := if answer.fails then Broken else if answer.eager && rest == [] then Eof else Ok;
    }
  }

  class LimitBody {
    const body: Body
    const limit: nat
    var left: int

    /** The whole content of the body, and what this reader has passed on of it. */
    ghost const content: seq<Byte>
    ghost var passed: seq<Byte>

    ghost predicate Valid()
      reads this, body
    {
      content == passed + body.rest && left == limit + 1 - |passed| && left >= 0
    }

    constructor (body: Body, limit: nat)
      ensures Valid() && passed == [] && content == body.rest && this.limit == limit && this.body == body
    {
      this.body, this.limit, left := body, limit, limit + 1;
      content, passed := body.rest, [];
    }

    /** limitBody.Read: what the body gives for what is left of the limit, and nothing past it. */
    method Read(size: nat, answer: Answer) returns (p: seq<Byte>, err: ReadError)
      requires Valid()
      modifies this, body
      ensures Valid() && passed == old(passed) + p
      ensures old(left) == 0 ==> p == [] && err == TooLarge
      ensures old(left) > 0 ==>
                && |p| == Min(Min(answer.want, Min(size, old(left))), |old(body.rest)|)
                && err == if answer.fails then Broken else if answer.eager && passed == content then Eof else Ok
    {
      if left <= 0 {
        return [], TooLarge;
      }
      p, err := body.Read(Min(size, left), answer);
      left := left - |p|;
      passed := passed + p;
    }

    /** A caller that reads until an error, with any buffer sizes, from a body that answers in any
        way. Ok means it has not met one yet. last is what the final Read delivered. The reader
        adds no failure of its own within the limit, lets nothing longer than limit + 1 end
        well, and passes limit + 1 bytes only when the end of file comes with the last of them. A
        caller that goes on long enough gets the whole content and its end, or the body's own
        failure, or, past the limit, TooLarge. */
    method Drain(sizes: seq<nat>, answers: seq<Answer>) returns (out: seq<Byte>, err: ReadError, last: seq<Byte>)
      requires Valid() && passed == [] && |sizes| == |answers|
      modifies this, body
      ensures Valid() && out == passed && |out| <= limit + 1 && out <= content
      ensures err == Eof ==> out == content && |content| <= limit + 1
      ensures err == TooLarge ==> |content| >= limit + 1 && out == content[..limit + 1]
      ensures err == Eof && |content| == limit + 1 ==> last != []
      ensures |content| <= limit && (forall i :: 0 <= i < |answers| ==> !answers[i].fails) ==>
                err == Ok || (err == Eof && out == content)
      ensures |content| > limit + 1 ==> err != Eof
      ensures Delivers(sizes, answers) && |answers| > |content| && answers[|answers| - 1].eager && |content| <= limit ==>
                err == Eof && out == content
      ensures Delivers(sizes, answers) && |answers| > limit + 1 && |content| > limit + 1 ==> err == TooLarge
      ensures |content| <= limit && BreaksOff(answers) ==> err == Broken
    {
      out, err, last := [], Ok, [];
      var i := 0;
      while i < |sizes| && err == Ok
        invariant i <= |sizes| && Valid() && out == passed
        invariant err == Eof ==> passed == content && (|content| == limit + 1 ==> last != [])
        invariant err == TooLarge ==> left == 0
        invariant err == Broken ==> exists j :: 0 <= j < |answers| && answers[j].fails
        invariant err == Ok && Delivers(sizes, answers) ==> |passed| >= Min(i, Min(|content|, limit + 1))
        invariant err == Ok ==> forall j :: 0 <= j < i ==> !answers[j].fails
        invariant i > 0 && err == Ok && passed == content ==> !answers[i - 1].eager
        invariant i > limit + 1 && err == Ok && Delivers(sizes, answers) ==> |content| <= limit + 1
        invariant err == Eof ==> i > 0 && !answers[i - 1].fails && answers[i - 1].eager && forall j :: 0 <= j < i - 1 ==> !answers[j].fails
      {
        last, err := Read(sizes[i], answers[i]);
        out := out + last;
        i := i + 1;
      }
    }
  }

  /** Every Read asks for something and delivers something while there is something, without failing. */
  predicate Delivers(sizes: seq<nat>, answers: seq<Answer>) {
    && (forall i :: 0 <= i < |sizes| ==> sizes[i] > 0)
    && (forall i :: 0 <= i < |answers| ==> answers[i].want > 0 && !answers[i].fails)
  }

  /** The body fails before any end of file. */
  predicate BreaksOff(answers: seq<Answer>) {
    exists k :: 0 <= k < |answers| && answers[k].fails && forall j :: 0 <= j < k ==> !answers[j].eager
  }

  /** RoundTrip and the read of the body: a declared length over the limit is refused before the
      body is read. With an honest declared length nothing over the limit passes at all. */
  method Fetch(declared: int, content: seq<Byte>, limit: nat, sizes: seq<nat>, answers: seq<Answer>)
    returns (out: seq<Byte>, err: ReadError)
    requires |sizes| == |answers|
    ensures out <= content && |out| <= limit + 1
    ensures err == Eof ==> out == content && |content| <= limit + 1
    ensures err == Eof && declared == |content| ==> |content| <= limit
    ensures |content| <= limit && declared <= limit ==> err != TooLarge
    ensures declared > limit ==> err == TooLarge && out == []
    ensures declared <= limit && |content| <= limit && |answers| > |content| ==>
              Delivers(sizes, answers) && answers[|answers| - 1].eager ==> err == Eof && out == content
  {
    if declared > limit {
      return [], TooLarge;
    }
    var body := new Body(content);
    var reader := new LimitBody(body, limit);
    var last;
    out, err, last := reader.Drain(sizes, answers);
  }
}
