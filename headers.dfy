/**
 * The two header predicates of getMails: `headers.some(h => h.name === n)`
 * and `headers.find(h => h.name === n).value`. Names are compared exactly
 * (case-sensitively), as `===` does.
 */
module Headers {
  import opened Wrappers
  import opened MailTypes

  const InReplyTo := "In-Reply-To"
  const FromField := "From"
  const SubjectField := "Subject"

  /** Some header field is named exactly `name`. */
  predicate HasField(headers: seq<Header>, name: string) {
    exists i :: 0 <= i < |headers| && headers[i].name == name
  }

  /** The message already belongs to a reply chain. */
  predicate HasReplied(headers: seq<Header>) {
    HasField(headers, InReplyTo)
  }

  /** The value of the first header field named exactly `name`, if there is one. */
  function Lookup(headers: seq<Header>, name: string): (r: Option<string>)
    ensures r.Some? <==> HasField(headers, name)
    ensures r.Some? ==>
      exists i :: 0 <= i < |headers| && headers[i].name == name && headers[i].value == r.value &&
        forall j :: 0 <= j < i ==> headers[j].name != name
  {
    if headers == [] then None
    else if headers[0].name == name then Some(headers[0].value)
    else
      var r := Lookup(headers[1..], name);
      assert forall i :: 0 < i < |headers| ==> headers[i] == headers[1..][i - 1];
      assert r.Some? ==>
        exists i :: 0 <= i < |headers| && headers[i].name == name && headers[i].value == r.value &&
          forall j :: 0 <= j < i ==> headers[j].name != name
      by {
        if r.Some? {
          var i :| 0 <= i < |headers[1..]| && headers[1..][i].name == name && headers[1..][i].value == r.value &&
            forall j :: 0 <= j < i ==> headers[1..][j].name != name;
          assert headers[i + 1] == headers[1..][i];
        }
      }
      r
  }
}
