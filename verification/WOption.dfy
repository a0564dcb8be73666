/** The -W option of every utility: a comma separated list that becomes long options on a CPLOB. */
module WOption {
  import opened Wrappers
  import opened Text
  import opened Cplob

  /** The text after the leading commas. */
  function SkipCommas(s: string): (t: string)
    ensures |t| <= |s| && (t != "" ==> t[0] != ',')
  {
    if s != "" && s[0] == ',' then SkipCommas(s[1..]) else s
  }

  /** The tokens `strob_strtok` hands out one after the other: it never hands out an empty one. */
  function Tokens(s: string): seq<string>
    decreases |s|
  {
    var t := SkipCommas(s);
    if t == "" then []
    else
      var k := IndexOf(t, ',');
      [t[..k]] + Tokens(t[k..])
  }

  /** A text without a comma is one token, or none. */
  lemma LoneToken(s: string)
    requires ',' !in s
    ensures Tokens(s) == if s == "" then [] else [s]
  {
    IndexOfIs(s, ',', |s|);
    if s == "" {
    } else {
      assert s[0] in s;
      assert s[..|s|] == s && s[|s|..] == "";
      assert Tokens("") == [];
    }
  }

  /** A comma ends a token if there is one before it. */
  lemma TokenThenRest(field: string, rest: string)
    requires ',' !in field
    ensures Tokens(field + "," + rest) == (if field == "" then [] else [field]) + Tokens(rest)
  {
    var s, after := field + "," + rest, "," + rest;
    assert after[1..] == rest;
    assert SkipCommas(after) == SkipCommas(rest);
    if field == "" {
      assert s == after;
    } else {
      assert s[0] in field && SkipCommas(s) == s;
      assert s[..|field|] == field && s[|field|..] == after;
      IndexOfIs(s, ',', |field|);
    }
  }

  lemma NonEmptyCons(field: string, fields: seq<string>)
    ensures NonEmpty([field] + fields) == (if field == "" then [] else [field]) + NonEmpty(fields)
  {
    assert ([field] + fields)[1..] == fields;
  }

  /** The tokens are the non-empty fields between the commas. */
  lemma {:induction false} TokensAreFields(s: string)
    ensures Tokens(s) == NonEmpty(Split(s, ','))
    decreases |s|
  {
    var k := IndexOf(s, ',');
    if k == |s| {
      assert s[..k] == s;
      LoneToken(s);
    } else {
      var field, rest := s[..k], s[k + 1..];
      TokensAreFields(rest);
      TokenThenRest(field, rest);
      assert s == field + "," + rest;
      NonEmptyCons(field, Split(rest, ','));
    }
  }

  lemma SkipTwice(s: string)
    ensures SkipCommas(SkipCommas(s)) == SkipCommas(s)
    ensures Tokens(SkipCommas(s)) == Tokens(s)
  {
  }

  /** The options the tokens stand for. */
  function LongOptions(tokens: seq<string>): seq<string>
  {
    seq(|tokens|, i requires 0 <= i < |tokens| => "--" + tokens[i])
  }

  /** Each option is a field behind two dashes. */
  lemma OptionsMean(tokens: seq<string>, i: nat)
    requires i < |tokens|
    ensures |LongOptions(tokens)| == |tokens|
    ensures var o := LongOptions(tokens)[i]; |o| == |tokens[i]| + 2 && o[0] == o[1] == '-' && o[2..] == tokens[i]
  {
  }

  /** The option made from one token: it is cut at the first '=' and put together again behind "--". */
  function OptionOf(token: string): (option: string)
    ensures option == "--" + token
  {
    var e := IndexOf(token, '=');
    if e < |token| then
      assert token == token[..e] + "=" + token[e + 1..];
      "--" + token[..e] + "=" + token[e + 1..]
    else "--" + token[..e]
  }

  /** Where the loop stands: `done` tokens have been turned into options, `rest` is still to be read. */
  ghost predicate Progress(all: seq<string>, done: seq<string>, rest: string)
  {
    && done <= all
    && all[|done|..] == Tokens(rest)
    && (rest != "" ==> rest[0] != ',')
  }

  lemma ProgressStep(all: seq<string>, done: seq<string>, rest: string)
    requires Progress(all, done, rest) && rest != ""
    ensures var k := IndexOf(rest, ',');
            && 0 < k
            && Progress(all, done + [rest[..k]], SkipCommas(rest[k..]))
            && LongOptions(done + [rest[..k]]) == LongOptions(done) + ["--" + rest[..k]]
  {
    var k := IndexOf(rest, ',');
    SkipTwice(rest[k..]);
    assert Tokens(rest)[0] == rest[..k] && Tokens(rest)[1..] == Tokens(rest[k..]);
    assert all[|done|..][1..] == all[|done| + 1..];
    assert all[|done|..][0] == all[|done|];
  }

  /** swc0_process_w_option */
  method ProcessWOption(args: CPLOB<string>, optarg: string, argc: int) returns (argc': int)
    requires args.Valid()
    modifies args, args.list
    ensures args.Valid()
    ensures args.Contents() == old(args.Contents()) + LongOptions(NonEmpty(Split(optarg, ',')))
    ensures argc' - |args.Contents()| == argc - old(|args.Contents()|)
    ensures args.list == old(args.list) || fresh(args.list)
  {
    ghost var before := args.Contents();
    ghost var all := Tokens(optarg);
    ghost var done := [];
    var rest := SkipCommas(optarg);
    argc' := argc;
    TokensAreFields(optarg);
    SkipTwice(optarg);
    while rest != ""
      invariant args.list == old(args.list) || fresh(args.list)
      invariant args.Valid() && args.Contents() == before + LongOptions(done)
      invariant Progress(all, done, rest)
      invariant argc' == argc + |done|
      decreases |rest|
    {
      var k := IndexOf(rest, ',');
      var token := rest[..k];
      ProgressStep(all, done, rest);
      Assoc(before, LongOptions(done), ["--" + token]);
      args.AddNta(Some(OptionOf(token)));
      argc' := argc' + 1;
      done := done + [token];
      rest := SkipCommas(rest[k..]);
    }
    assert done == all;
  }
}
