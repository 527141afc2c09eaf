// drghs-worker/pkg/googlers/googlers_static.go: a fixed list of the
// GitHub logins of Googlers, looked up by exact login.
module Googlers {
  import opened Strs

  /** The logins of the users constant, in its order, in groups of eight. */
  const Logins1: seq<string> := ["surferjeffatgoogle", "pfritzsche", "michaelawyu", "jadekler", "tmatsuo", "jba", "andrewsg", "jonparrott"]
  const Logins2: seq<string> := ["tbpg", "bshaffer", "dzlier-gcp", "ace-n", "jabubake", "kurtisvg", "jsimonweb", "ryanmats"]
  const Logins3: seq<string> := ["frankyn", "broady", "lesv", "afitz0", "sanche21", "simonz130", "djmailhot", "ahmetb"]
  const Logins4: seq<string> := ["jmdobry", "annie29", "sgreenberg", "davidcavazos", "nkashy1", "dizcology", "alixhami", "happyhuman"]
  const Logins5: seq<string> := ["sirtorry", "gguuss", "remi", "tswast", "elibixby", "nnegrey", "puneith", "oalami"]
  const Logins6: seq<string> := ["jeffmendoza", "rakyll", "jerjou", "p-buse", "waprin", "stephenplusplus"]

  /**
   * The lines of the users constant. The constant opens and closes with a
   * newline, so its first and last lines are empty.
   */
  const UserLines: seq<string> := [""] + Logins1 + Logins2 + Logins3 + Logins4 + Logins5 + Logins6 + [""]

  /** The users constant: its lines joined by newlines. */
  const Users: string := Join(UserLines, "\n")

  class GooglersStatic {
    var googlers: set<string>

    /** Every newline-separated entry of the text is a Googler, and nothing else. */
    constructor (users: string)
      ensures googlers == set l | l in Split(users, '\n')
    {
      var lines := Split(users, '\n');
      var known: set<string> := {};
      for i := 0 to |lines|
        invariant known == set l | l in lines[..i]
      {
        assert lines[..i + 1] == lines[..i] + [lines[i]];
        known := known + {lines[i]};
      }
      assert lines[..|lines|] == lines;
      googlers := known;
    }

    /** IsGoogler: the login is one of the entries, matched exactly. */
    predicate IsGoogler(user: string)
      reads this
    {
      user in googlers
    }

    /** Update: the list is fixed, so nothing changes. */
    method Update()
      ensures googlers == old(googlers)
    {
    }
  }

  /** No line holds a newline. */
  predicate Plain(ls: seq<string>)
  {
    forall k | 0 <= k < |ls| :: '\n' !in ls[k]
  }

  lemma PlainAppend(a: seq<string>, b: seq<string>)
    requires Plain(a) && Plain(b)
    ensures Plain(a + b)
  {
    forall k | 0 <= k < |a + b|
      ensures '\n' !in (a + b)[k]
    {
      if k >= |a| {
        assert (a + b)[k] == b[k - |a|];
      }
    }
  }

  lemma PlainGroups12()
    ensures Plain(Logins1) && Plain(Logins2)
  {
  }

  lemma PlainGroups34()
    ensures Plain(Logins3) && Plain(Logins4)
  {
  }

  lemma PlainGroups56()
    ensures Plain(Logins5) && Plain(Logins6)
  {
  }

  /** No login of the users constant holds a newline. */
  lemma NoNewlineInLines()
    ensures Plain(UserLines)
  {
    PlainGroups12();
    PlainGroups34();
    PlainGroups56();
    assert Plain([""]);
    PlainAppend([""], Logins1);
    PlainAppend([""] + Logins1, Logins2);
    PlainAppend([""] + Logins1 + Logins2, Logins3);
    PlainAppend([""] + Logins1 + Logins2 + Logins3, Logins4);
    PlainAppend([""] + Logins1 + Logins2 + Logins3 + Logins4, Logins5);
    PlainAppend([""] + Logins1 + Logins2 + Logins3 + Logins4 + Logins5, Logins6);
    PlainAppend([""] + Logins1 + Logins2 + Logins3 + Logins4 + Logins5 + Logins6, [""]);
  }

  /** Built from the users constant, the Googlers are exactly its lines, the empty login among them. */
  lemma GooglersAreTheLines(g: GooglersStatic)
    requires g.googlers == set l | l in Split(Users, '\n')
    ensures forall u :: g.IsGoogler(u) <==> u in UserLines
    ensures g.IsGoogler("")
  {
    NoNewlineInLines();
    SplitJoin(UserLines, '\n');
    assert "\n" == ['\n'];
  }

  /** A login with a newline in it is never a Googler, whatever the text. */
  lemma NewlineNeverGoogler(users: string, g: GooglersStatic, u: string)
    requires g.googlers == set l | l in Split(users, '\n')
    requires '\n' in u
    ensures !g.IsGoogler(u)
  {
  }

  /** A text that starts with a newline makes the empty login a Googler. */
  lemma LeadingNewlineAdmitsEmpty(users: string, g: GooglersStatic)
    requires g.googlers == set l | l in Split(users, '\n')
    requires |users| > 0 && users[0] == '\n'
    ensures g.IsGoogler("")
  {
    assert Split(users, '\n')[0] == "";
  }
}
