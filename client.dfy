/** The command-line client of `client/main.cpp`: the message it sends is
    its arguments joined by single spaces. */
module Client {

  datatype Option<T> = None | Some(value: T)

  /** The arguments in order, one space between consecutive ones. */
  function Join(args: seq<string>): string
    requires |args| >= 1
    decreases |args|
  {
    if |args| == 1 then args[0]
    else Join(args[..|args| - 1]) + " " + args[|args| - 1]
  }

  /** The total length of the arguments. */
  function SumLengths(args: seq<string>): nat
    decreases |args|
  {
    if args == [] then 0 else SumLengths(args[..|args| - 1]) + |args[|args| - 1]|
  }

  /** Where argument k starts in the joined message: after the k arguments
      before it and one space behind each of them. */
  function Offset(args: seq<string>, k: nat): nat
    requires k <= |args|
  {
    SumLengths(args[..k]) + k
  }

  /** `main`'s message: nothing when no argument is given, otherwise
      `argv[1]` followed by a space and `argv[i]` for every further i. */
  method ComposeMessage(argv: seq<string>) returns (message: Option<string>)
    requires |argv| >= 1
    ensures message == None <==> |argv| == 1
    ensures |argv| > 1 ==> message == Some(Join(argv[1..]))
    ensures |argv| == 2 ==> message == Some(argv[1])
    ensures |argv| > 1 ==> |message.value| == SumLengths(argv[1..]) + |argv| - 2
  {
    if |argv| == 1 {
      return None;
    }
    var m := argv[1];
    for i := 2 to |argv|
      invariant m == Join(argv[1..i])
    {
      assert argv[1..i + 1][..i - 1] == argv[1..i];
      m := m + [' '];
      m := m + argv[i];
    }
    assert argv[1..|argv|] == argv[1..];
    JoinLength(argv[1..]);
    message := Some(m);
  }

  /** The message is as long as the arguments together, plus one space
      fewer than there are arguments. */
  lemma {:induction false} JoinLength(args: seq<string>)
    requires |args| >= 1
    ensures |Join(args)| == SumLengths(args) + |args| - 1
    decreases |args|
  {
    var n := |args| - 1;
    if n == 0 {
      assert args[..0] == [];
    } else {
      JoinLength(args[..n]);
    }
  }

  /** A prefix of the arguments is summed by a prefix of the sums. */
  lemma SumLengthsPrefix(args: seq<string>, k: nat)
    requires k < |args|
    ensures SumLengths(args[..k + 1]) == SumLengths(args[..k]) + |args[k]|
  {
    assert args[..k + 1][..k] == args[..k];
  }

  /** Argument k sits in the message at `Offset(args, k)`, preceded by a
      single space unless it is the first; the message ends right after the
      last argument. So the arguments appear in order, one space apart, with
      no space added before the first or after the last. */
  lemma {:induction false} JoinLayout(args: seq<string>, k: nat)
    requires k < |args|
    ensures |Join(args)| == Offset(args, |args| - 1) + |args[|args| - 1]|
    ensures Offset(args, k) + |args[k]| <= |Join(args)|
    ensures Join(args)[Offset(args, k)..Offset(args, k) + |args[k]|] == args[k]
    ensures k > 0 ==> Join(args)[Offset(args, k) - 1] == ' '
    decreases |args|
  {
    var n := |args| - 1;
    JoinLength(args);
    SumLengthsPrefix(args, n);
    assert args[..n + 1] == args;
    if n > 0 {
      var front := args[..n];
      JoinLength(front);
      var left := Join(front) + " ";
      assert Join(args) == left + args[n];
      if k < n {
        JoinLayout(front, k);
        assert front[..k] == args[..k];
        assert Join(args)[Offset(args, k)..Offset(args, k) + |args[k]|]
            == Join(front)[Offset(args, k)..Offset(args, k) + |args[k]|];
        if k > 0 {
          assert Join(args)[Offset(args, k) - 1] == Join(front)[Offset(args, k) - 1];
        }
      } else {
        assert front[..n] == front;
        assert Offset(args, k) == |left|;
        assert Join(args)[|left|..|left| + |args[n]|] == args[n];
        assert Join(args)[|left| - 1] == ' ';
      }
    } else {
      assert args[..0] == [];
    }
  }

  // ---------------------------------------------------------------------
  // Splitting at spaces undoes the join of arguments that hold none.

  /** The pieces of s between its spaces. */
  function Split(s: string): (pieces: seq<string>)
    ensures |pieces| >= 1
    decreases |s|
  {
    if s == [] then [""]
    else
      var rest := Split(s[1..]);
      if s[0] == ' ' then [""] + rest else [[s[0]] + rest[0]] + rest[1..]
  }

  /** A string without spaces is one piece. */
  lemma {:induction false} SplitNoSpace(s: string)
    requires ' ' !in s
    ensures Split(s) == [s]
    decreases |s|
  {
    if s != [] {
      assert s[0] != ' ' && ' ' !in s[1..];
      SplitNoSpace(s[1..]);
      assert [s[0]] + s[1..] == s;
    }
  }

  /** Splitting `x + " " + y` splits x and y apart. */
  lemma {:induction false} SplitAtSpace(x: string, y: string)
    ensures Split(x + " " + y) == Split(x) + Split(y)
    decreases |x|
  {
    if x == [] {
      assert x + " " + y == [' '] + y;
      assert ([' '] + y)[1..] == y;
    } else {
      var s := x + " " + y;
      assert s[0] == x[0];
      assert s[1..] == x[1..] + " " + y;
      SplitAtSpace(x[1..], y);
    }
  }

  /** Splitting the message at its spaces gives the arguments back, when no
      argument holds a space. */
  lemma {:induction false} SplitJoin(args: seq<string>)
    requires |args| >= 1
    requires forall k :: 0 <= k < |args| ==> ' ' !in args[k]
    ensures Split(Join(args)) == args
    decreases |args|
  {
    var n := |args| - 1;
    SplitNoSpace(args[n]);
    if n > 0 {
      SplitJoin(args[..n]);
      SplitAtSpace(Join(args[..n]), args[n]);
      assert args[..n] + [args[n]] == args;
    }
  }
}
