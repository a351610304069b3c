/**
 * The command router of main.go: handleOperation matches the verb without
 * regard to case, checks the number of tokens each verb takes and either
 * runs the command on the key space or answers with the verb's parameter
 * error, leaving the key space as it was. The input loop of main splits a
 * line at spaces and sends the four read verbs to the read workers and
 * every other line to the write worker.
 */
module Router {
  import opened StrConv
  import opened Constants
  import opened Text
  import R = Redis
  import K = KeySpaces

  /** The eight verbs handleOperation knows, in lower case. */
  predicate Known(verb: string)
  {
    verb in {"set", "get", "del", "ttl", "expire", "zadd", "zrange", "zrank"}
  }

  /** The parameter-error code of a known verb (the numbering of ErrorConstants). */
  function Code(verb: string): (code: int)
    requires Known(verb)
    ensures 1 <= code <= 8
  {
    match verb
    case "set" => 1
    case "get" => 2
    case "del" => 3
    case "ttl" => 4
    case "expire" => 5
    case "zadd" => 6
    case "zrange" => 7
    case _ => 8
  }

  /** Whether a verb's token count (verb included) is one handleOperation dispatches. */
  predicate ArityOk(verb: string, n: int)
    requires Known(verb)
  {
    match verb
    case "set" => n == 3 || n == 5
    case "get" => n == 2
    case "ttl" => n == 2
    case "del" => n >= 2
    case "expire" => n == 3
    case "zadd" => n >= 4 && n % 2 == 0
    case "zrange" => n == 4 || n == 5
    case _ => n == 3
  }

  /** The verbs main sends to the read workers (line 145). */
  predicate IsReadVerb(verb: string)
  {
    verb == "get" || verb == "ttl" || verb == "zrank" || verb == "zrange"
  }

  /**
   * handleOperation (lines 16-79) once the verb has been lower-cased: the
   * new key space, the reply, and whether a decrementer for the key is
   * started (by SET with an expiry or by EXPIRE). `args` are the tokens
   * after the verb. Beyond the token count, only EXPIRE checks an argument
   * itself: a timer Atoi rejects is answered with its parameter error.
   * `hidden` says whether ZRANK's set hides its member "" (Redis.Zrank).
   */
  function Dispatch(st: R.Store, verb: string, args: seq<string>, hidden: bool): (r: (R.Store, string, bool))
    ensures !Known(verb) ==> r == (st, ErrorConstants(0), false)
    ensures Known(verb) && !ArityOk(verb, |args| + 1) ==> r == (st, ErrorConstants(Code(verb)), false)
    ensures IsReadVerb(verb) ==> r.0 == st && !r.2
  {
    var n := |args| + 1;
    match verb
    case "set" =>
      if n == 3 || n == 5 then R.Set(st, [verb] + args) else (st, ErrorConstants(1), false)
    case "get" =>
      if n == 2 then (st, R.Get(st, args[0]), false) else (st, ErrorConstants(2), false)
    case "ttl" =>
      if n == 2 then (st, R.Ttl(st, args[0]), false) else (st, ErrorConstants(4), false)
    case "del" =>
      if n >= 2 then
        var (s1, flag) := R.Del(st, args);
        (s1, R.DelReply(flag), false)
      else (st, ErrorConstants(3), false)
    case "expire" =>
      if n == 3 && Atoi(args[1]).ok then
        var (s1, spawn) := R.Expire(st, args[0], Atoi(args[1]).value);
        (s1, R.Ok, spawn)
      else (st, ErrorConstants(5), false)
    case "zadd" =>
      if n >= 4 && n % 2 == 0 then (R.Zadd(st, args[0], args[1..]), R.Ok, false)
      else (st, ErrorConstants(6), false)
    case "zrange" =>
      if n == 4 || n == 5 then (st, R.Zrange(st, args[0], args[1..]), false)
      else (st, ErrorConstants(7), false)
    case "zrank" =>
      if n == 3 then (st, R.Zrank(st, args[0], args[1], hidden), false) else (st, ErrorConstants(8), false)
    case _ => (st, ErrorConstants(0), false)
  }

  /** handleOperation: the verb is lower-cased (line 17) and the command dispatched on it. */
  function Handle(st: R.Store, command: seq<string>, hidden: bool): (R.Store, string, bool)
    requires |command| >= 1
  {
    Dispatch(st, ToLower(command[0]), command[1..], hidden)
  }

  /** Lower-casing twice is lower-casing once. */
  lemma {:induction false} ToLowerTwice(s: string)
    ensures ToLower(ToLower(s)) == ToLower(s)
  {
    if s != [] {
      ToLowerTwice(s[1..]);
      assert ToLower(s)[1..] == ToLower(s[1..]);
    }
  }

  /** The verb is matched without regard to case: a command and its lower-cased verb behave alike. */
  lemma CaseInsensitive(st: R.Store, command: seq<string>, hidden: bool)
    requires |command| >= 1
    ensures Handle(st, [ToLower(command[0])] + command[1..], hidden) == Handle(st, command, hidden)
  {
    var c := [ToLower(command[0])] + command[1..];
    ToLowerTwice(command[0]);
    assert c[1..] == command[1..];
  }

  /** SET reads only the tokens after the verb. */
  lemma SetIgnoresVerb(st: R.Store, c: seq<string>, d: seq<string>)
    requires |c| == |d| >= 1 && c[1..] == d[1..]
    ensures |c| >= 3 && |c| != 4 ==> R.Set(st, c) == R.Set(st, d)
  {
    if |c| >= 3 {
      assert c[1] == d[1] && c[2] == d[2];
      if |c| >= 5 {
        assert c[3] == d[3] && c[4] == d[4];
      }
    }
  }

  /** The parameter error of a verb names that verb: its command word, lower-cased, is the verb. */
  lemma ErrorNamesVerb(verb: string)
    requires Known(verb)
    ensures ToLower(Verb(Code(verb))) == verb
  {
    var v := Verb(Code(verb));
    if verb == "set" {
      LowerOfUpper(v, "set");
    } else if verb == "get" {
      LowerOfUpper(v, "get");
    } else if verb == "del" {
      LowerOfUpper(v, "del");
    } else if verb == "ttl" {
      LowerOfUpper(v, "ttl");
    } else if verb == "expire" {
      LowerOfUpper(v, "expire");
    } else if verb == "zadd" {
      LowerOfUpper(v, "zadd");
    } else if verb == "zrange" {
      LowerOfUpper(v, "zrange");
    } else {
      LowerOfUpper(v, "zrank");
    }
  }

  /** A word of capitals lower-cases to the word with each letter 32 code points on. */
  lemma LowerOfUpper(u: string, l: string)
    requires |u| == |l| && forall i :: 0 <= i < |u| ==> 'A' <= u[i] <= 'Z' && l[i] as int == u[i] as int + 32
    ensures ToLower(u) == l
  {
  }

  /**
   * A command whose token count its verb accepts is run as the key space
   * defines it: SET, DEL, ZADD and EXPIRE change the store (EXPIRE only
   * with a timer Atoi accepts, else its parameter error and no change).
   */
  lemma Dispatched(st: R.Store, command: seq<string>, hidden: bool)
    requires |command| >= 1
    ensures ToLower(command[0]) == "set" && (|command| == 3 || |command| == 5) ==>
      Handle(st, command, hidden) == R.Set(st, command)
    ensures ToLower(command[0]) == "del" && |command| >= 2 ==>
      Handle(st, command, hidden) == (R.Del(st, command[1..]).0, R.DelReply(R.Del(st, command[1..]).1), false)
    ensures ToLower(command[0]) == "del" && |command| >= 2 ==> Handle(st, command, hidden).1 in {"0", "1"}
    ensures ToLower(command[0]) == "zadd" && |command| >= 4 && |command| % 2 == 0 ==>
      Handle(st, command, hidden) == (R.Zadd(st, command[1], command[2..]), R.Ok, false)
    ensures ToLower(command[0]) == "expire" && |command| == 3 ==>
      Handle(st, command, hidden) ==
        if Atoi(command[2]).ok then
          (R.Expire(st, command[1], Atoi(command[2]).value).0, R.Ok, R.Expire(st, command[1], Atoi(command[2]).value).1)
        else (st, ErrorConstants(5), false)
    ensures ToLower(command[0]) == "expire" && |command| == 3 ==>
      (Handle(st, command, hidden).1 == R.Ok <==> Atoi(command[2]).ok)
  {
    hide R.Set, R.Del, R.Zadd, R.Expire, R.Get, R.Ttl, R.Zrange, R.Zrank;
    var verb, args := ToLower(command[0]), command[1..];
    assert Handle(st, command, hidden) == Dispatch(st, verb, args, hidden);
    if verb == "set" {
      SetIgnoresVerb(st, [verb] + args, command);
    }
    if verb == "expire" && |command| == 3 && !Atoi(command[2]).ok {
      assert ErrorConstants(5)[0] != R.Ok[0];
    }
    if |command| >= 3 {
      assert args[0] == command[1] && args[1..] == command[2..];
    }
  }

  /** GET, TTL and ZRANGE with a token count they accept answer as the key space does and change nothing. */
  lemma DispatchedReads(st: R.Store, command: seq<string>, hidden: bool)
    requires |command| >= 1
    ensures ToLower(command[0]) == "get" && |command| == 2 ==> Handle(st, command, hidden) == (st, R.Get(st, command[1]), false)
    ensures ToLower(command[0]) == "ttl" && |command| == 2 ==> Handle(st, command, hidden) == (st, R.Ttl(st, command[1]), false)
    ensures ToLower(command[0]) == "zrange" && (|command| == 4 || |command| == 5) ==>
      Handle(st, command, hidden) == (st, R.Zrange(st, command[1], command[2..]), false)
  {
    var verb, args := ToLower(command[0]), command[1..];
    assert Handle(st, command, hidden) == Dispatch(st, verb, args, hidden);
    if |command| >= 3 {
      assert args[1..] == command[2..];
    }
  }

  /** ZRANK with its three tokens answers as the key space does and changes nothing. */
  lemma DispatchedZrank(st: R.Store, command: seq<string>, hidden: bool)
    requires |command| == 3 && ToLower(command[0]) == "zrank"
    ensures Handle(st, command, hidden) == (st, R.Zrank(st, command[1], command[2], hidden), false)
  {
    hide R.Zrank;
    var args := command[1..];
    assert args[0] == command[1] && args[1] == command[2];
  }

  /**
   * The REPL splits each line at spaces (line 143), so handleOperation
   * always has a verb, and a line whose verb is not a read verb goes to
   * the write worker (lines 144-149).
   */
  function Tokens(line: string): (data: seq<string>)
    ensures |data| >= 1
    ensures Join(data, " ") == line
    ensures forall i :: 0 <= i < |data| ==> ' ' !in data[i]
  {
    SplitJoin(line, " ");
    TokensSpaceFree(Split(line, " "));
    Split(line, " ")
  }

  lemma TokensSpaceFree(data: seq<string>)
    requires forall k :: 0 <= k < |data| ==> Find(data[k], " ") == -1
    ensures forall i :: 0 <= i < |data| ==> ' ' !in data[i]
  {
    forall i | 0 <= i < |data| ensures ' ' !in data[i] {
      FindChar(data[i], ' ');
    }
  }

  /** The tokens are the only space-free pieces that make up the line, empty pieces included. */
  lemma TokensUnique(line: string, pieces: seq<string>)
    requires pieces != [] && Join(pieces, " ") == line && forall i :: 0 <= i < |pieces| ==> ' ' !in pieces[i]
    ensures Tokens(line) == pieces
  {
    JoinSplit(pieces, ' ');
  }

  /** A trailing space leaves an empty last token: ZADD then adds the member "". */
  lemma TokensTrailingSpace()
    ensures Tokens("zadd k 1 ") == ["zadd", "k", "1", ""]
  {
    TokensUnique("zadd k 1 ", ["zadd", "k", "1", ""]);
  }

  /** Only lines sent to the write worker can change the key space or start a decrementer. */
  lemma ReadsChangeNothing(st: R.Store, line: string, hidden: bool)
    ensures IsReadVerb(ToLower(Tokens(line)[0])) ==>
      Handle(st, Tokens(line), hidden) == (st, Handle(st, Tokens(line), hidden).1, false)
  {
  }

  /** handleOperation on the key space object: the reply and new state are those of Handle. */
  method HandleOperation(ks: K.KeySpace, command: seq<string>) returns (reply: string, spawn: bool)
    requires ks.Valid() && |command| >= 1
    modifies ks, ks.db.zsets.Values
    ensures ks.Valid()
    ensures (ks.Abs(), reply, spawn) == Handle(old(ks.Abs()), command, old(|command| >= 2 && ks.Hides(command[1])))
  {
    SetIgnoresVerb(old(ks.Abs()), [ToLower(command[0])] + command[1..], command);
    hide R.Set, R.Del, R.Zadd, R.Zrange, R.Zrank, R.Get, R.Ttl, R.Expire, ErrorConstants, K.KeySpace.Valid, ToLower;
    var operation := ToLower(command[0]);
    var commandLength := |command|;
    spawn := false;
    match operation
    case "set" =>
      if commandLength == 3 || commandLength == 5 {
        reply, spawn := ks.Set(command);
      } else {
        reply := ErrorConstants(1);
      }
    case "get" =>
      if commandLength == 2 {
        reply := ks.Get(command[1]);
      } else {
        reply := ErrorConstants(2);
      }
    case "ttl" =>
      if commandLength == 2 {
        reply := ks.Ttl(command[1]);
      } else {
        reply := ErrorConstants(4);
      }
    case "del" =>
      if commandLength >= 2 {
        reply := ks.Del(command[1..]);
      } else {
        reply := ErrorConstants(3);
      }
    case "expire" =>
      if commandLength == 3 {
        var i1 := Atoi(command[2]);
        if i1.ok {
          reply, spawn := ks.Expire(command[1], i1.value);
        } else {
          reply := ErrorConstants(5);
        }
      } else {
        reply := ErrorConstants(5);
      }
    case "zadd" =>
      if commandLength >= 4 && commandLength % 2 == 0 {
        reply := ks.Zadd(command[1], command[2..]);
      } else {
        reply := ErrorConstants(6);
      }
    case "zrange" =>
      if commandLength == 4 || commandLength == 5 {
        reply := ks.Zrange(command[1], command[2..]);
      } else {
        reply := ErrorConstants(7);
      }
    case "zrank" =>
      if commandLength == 3 {
        reply := ks.Zrank(command[1], command[2]);
      } else {
        reply := ErrorConstants(8);
      }
    case _ =>
      reply := ErrorConstants(0);
  }
}
