/** User names and the lines the room sends about them. */
module Names {

  /** Rust's `char::is_ascii_alphanumeric`. */
  predicate IsAsciiAlphanumeric(c: char) {
    ('0' <= c <= '9') || ('A' <= c <= 'Z') || ('a' <= c <= 'z')
  }

  /** `name.chars().all(|x| x.is_ascii_alphanumeric())`, one character at a time. */
  function AllAsciiAlphanumeric(s: string): (r: bool)
    ensures r <==> forall i | 0 <= i < |s| :: IsAsciiAlphanumeric(s[i])
    decreases |s|
  {
    |s| == 0 || (IsAsciiAlphanumeric(s[0]) && AllAsciiAlphanumeric(s[1..]))
  }

  /** `validate_username`: the same test in both versions of the server. */
  function ValidUsername(name: string): (r: bool)
    ensures r <==> |name| > 0 && forall i | 0 <= i < |name| :: IsAsciiAlphanumeric(name[i])
  {
    |name| > 0 && AllAsciiAlphanumeric(name)
  }

  const ContentsHeader: string := "* The room contains: "

  /** The line a new member receives: the header and the names joined by ", ". */
  function ContentsText(names: seq<string>): (r: string)
    ensures |ContentsHeader| <= |r|
    ensures r[..|ContentsHeader|] == ContentsHeader
    ensures r[|ContentsHeader|..] == Join(names, ", ")
  {
    ContentsHeader + Join(names, ", ")
  }

  /** The arrival line; the name sits right after the leading "* ". */
  function EnteredText(name: string): (r: string)
    ensures |r| == |name| + 23
    ensures r[..2] == "* " && r[2..|name| + 2] == name && r[|name| + 2..] == " has entered the room"
  {
    "* " + name + " has entered the room"
  }

  /** The departure line; the name sits right after the leading "* ". */
  function LeftText(name: string): (r: string)
    ensures |r| == |name| + 20
    ensures r[..2] == "* " && r[2..|name| + 2] == name && r[|name| + 2..] == " has left the room"
  {
    "* " + name + " has left the room"
  }

  /** A chat line as other members see it: the bracketed sender, a space,
      then the message unchanged. */
  function ChatText(name: string, msg: string): (r: string)
    ensures |r| == |name| + |msg| + 3
    ensures r[0] == '[' && r[1..|name| + 1] == name && r[|name| + 1..|name| + 3] == "] "
    ensures r[|name| + 3..] == msg
  {
    "[" + name + "] " + msg
  }

  /** `Vec::join`: the parts with `sep` between neighbours; no parts give "". */
  function Join(parts: seq<string>, sep: string): (r: string)
    ensures |parts| == 0 ==> r == ""
    ensures |parts| > 0 ==> |r| == |parts[0]| + |Join(parts[1..], sep)| + (if |parts| > 1 then |sep| else 0)
    ensures |parts| > 0 ==> r[..|parts[0]|] == parts[0]
    decreases |parts|
  {
    if |parts| == 0 then ""
    else if |parts| == 1 then parts[0]
    else parts[0] + sep + Join(parts[1..], sep)
  }

  /** The position of the first ',' in `s`, or `|s|` when there is none. */
  function CommaIndex(s: string): (i: nat)
    ensures i <= |s|
    ensures i < |s| ==> s[i] == ','
    ensures forall k | 0 <= k < i :: s[k] != ','
    decreases |s|
  {
    if |s| == 0 || s[0] == ',' then 0 else 1 + CommaIndex(s[1..])
  }

  /** Reads a ", "-separated list back into its parts (the inverse of `Join`
      that a client would apply to the room-contents line). */
  function SplitNames(s: string): seq<string>
    decreases |s|
  {
    if |s| == 0 then []
    else
      var i := CommaIndex(s);
      if i == |s| then [s]
      else [s[..i]] + SplitNames(s[if i + 2 <= |s| then i + 2 else |s|..])
  }

  /** A valid name has no comma, and one followed by ", " and more text is
      cut exactly at its end. */
  lemma CommaAfterValid(x: string, rest: string)
    requires ValidUsername(x)
    ensures CommaIndex(x) == |x|
    ensures CommaIndex(x + ", " + rest) == |x|
  {
    var s := x + ", " + rest;
    assert forall k | 0 <= k < |x| :: x[k] != ',' && s[k] == x[k];
    assert s[|x|] == ',';
  }

  /** Splitting peels a leading valid name off at the first ", ". */
  lemma SplitNamesCons(x: string, rest: string)
    requires ValidUsername(x)
    ensures SplitNames(x + ", " + rest) == [x] + SplitNames(rest)
  {
    var s := x + ", " + rest;
    CommaAfterValid(x, rest);
    assert s[..|x|] == x;
    assert s[|x| + 2..] == rest;
  }

  /** Valid names contain no comma, so a joined list of them reads back as
      exactly that list. */
  lemma {:induction false} SplitJoin(names: seq<string>)
    requires forall i | 0 <= i < |names| :: ValidUsername(names[i])
    ensures SplitNames(Join(names, ", ")) == names
    decreases |names|
  {
    if |names| == 1 {
      CommaAfterValid(names[0], "");
    } else if |names| > 1 {
      var rest := Join(names[1..], ", ");
      assert Join(names, ", ") == names[0] + ", " + rest;
      SplitNamesCons(names[0], rest);
      SplitJoin(names[1..]);
      assert names == [names[0]] + names[1..];
    }
  }

  /** The room-contents line determines the listed names: strip the header
      and split, and the list comes back. */
  lemma ContentsRoundTrip(names: seq<string>)
    requires forall i | 0 <= i < |names| :: ValidUsername(names[i])
    ensures ContentsText(names)[..|ContentsHeader|] == ContentsHeader
    ensures SplitNames(ContentsText(names)[|ContentsHeader|..]) == names
  {
    assert ContentsText(names)[|ContentsHeader|..] == Join(names, ", ");
    SplitJoin(names);
  }
}
