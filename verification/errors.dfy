/**
 * src/Errors.js: a fixed table of message templates and `throwError`, which
 * fills each template's `%s` placeholders with the arguments, left to right.
 * The thrown `Error` is returned as a value.
 */
module Errors {
  import opened Wrappers

  datatype Error = Error(message: string)

  /** The message table, keyed by code. */
  const Messages: map<string, string> := map[
    "INVALID_BUCKET_PREFIX" := "Invalid Bucket Prefix: %s",
    "INVALID_OBJECT_TARGET" := "Invalid Object target: %s",
    "INVALID_MESSAGE_CODE" := "Invalid message code",
    "MODEL_NAME_EXISTS" := "Cannot redeclare name '%s' in Model",
    "OBJECT_LOCK_EXISTS" := "Lock exists for: %s"
  ]

  /** The text between the placeholders of each template. */
  const MessagePieces: map<string, seq<string>> := map[
    "INVALID_BUCKET_PREFIX" := ["Invalid Bucket Prefix: ", ""],
    "INVALID_OBJECT_TARGET" := ["Invalid Object target: ", ""],
    "INVALID_MESSAGE_CODE" := ["Invalid message code"],
    "MODEL_NAME_EXISTS" := ["Cannot redeclare name '", "' in Model"],
    "OBJECT_LOCK_EXISTS" := ["Lock exists for: ", ""]
  ]

  /** The pattern `/\%s/i` matches at position `i`: a `%` followed by `s` or `S`. */
  predicate PlaceholderAt(s: string, i: int) {
    0 <= i && i + 1 < |s| && s[i] == '%' && (s[i + 1] == 's' || s[i + 1] == 'S')
  }

  predicate NoPercent(s: string) {
    '%' !in s
  }

  /** An argument that is inserted verbatim and cannot form a placeholder: no `%` and no `$`. */
  predicate Plain(arg: string) {
    NoPercent(arg) && '$' !in arg
  }

  /** The position of the first placeholder, if any. */
  function FindPlaceholder(s: string): (r: Option<nat>)
    ensures r.Some? ==> PlaceholderAt(s, r.value)
    ensures r.Some? ==> forall j :: 0 <= j < r.value ==> !PlaceholderAt(s, j)
    ensures r.None? ==> forall j :: !PlaceholderAt(s, j)
    decreases |s|
  {
    if |s| < 2 then None
    else if PlaceholderAt(s, 0) then Some(0)
    else
      match FindPlaceholder(s[1..])
      case None =>
        assert forall j :: PlaceholderAt(s, j) && j > 0 ==> PlaceholderAt(s[1..], j - 1);
        None
      case Some(i) =>
        assert PlaceholderAt(s, i + 1);
        assert forall j :: 0 < j < i + 1 && PlaceholderAt(s, j) ==> PlaceholderAt(s[1..], j - 1);
        Some(i + 1)
  }

  /**
   * The replacement text `String.prototype.replace` inserts for the string
   * `arg` when the pattern has no capture groups: `$$` stands for `$`, `$&`
   * for the matched text, `` $` `` for the text before the match and `$'`
   * for the text after it; every other character, a lone `$` included,
   * stands for itself.
   */
  function Expand(arg: string, before: string, matched: string, after: string): (r: string)
    ensures '$' !in arg ==> r == arg
    decreases |arg|
  {
    if |arg| == 0 then ""
    else if arg[0] == '$' && |arg| >= 2 && arg[1] == '$' then "$" + Expand(arg[2..], before, matched, after)
    else if arg[0] == '$' && |arg| >= 2 && arg[1] == '&' then matched + Expand(arg[2..], before, matched, after)
    else if arg[0] == '$' && |arg| >= 2 && arg[1] == '`' then before + Expand(arg[2..], before, matched, after)
    else if arg[0] == '$' && |arg| >= 2 && arg[1] == '\'' then after + Expand(arg[2..], before, matched, after)
    else
      assert '$' !in arg ==> '$' !in arg[1..] by {
        assert forall c :: c in arg[1..] ==> c in arg;
      }
      [arg[0]] + Expand(arg[1..], before, matched, after)
  }

  /**
   * `str.replace(/\%s/i, arg)`: the first placeholder, if any, is replaced
   * by the expansion of `arg`; the text around it is kept.
   */
  function ReplaceFirst(s: string, arg: string): (r: string)
    ensures FindPlaceholder(s).None? ==> r == s
    ensures FindPlaceholder(s).Some? ==>
      var i := FindPlaceholder(s).value;
      |r| >= |s| - 2 && r[..i] == s[..i] && r[|r| - (|s| - i - 2)..] == s[i + 2..]
    ensures FindPlaceholder(s).Some? && '$' !in arg ==>
      var i := FindPlaceholder(s).value;
      |r| == |s| - 2 + |arg| && r[..i] == s[..i] && r[i..i + |arg|] == arg && r[i + |arg|..] == s[i + 2..]
  {
    match FindPlaceholder(s)
    case None => s
    case Some(i) => s[..i] + Expand(arg, s[..i], s[i..i + 2], s[i + 2..]) + s[i + 2..]
  }

  /** The loop of `throwError`: each argument in turn replaces the first placeholder left. */
  function Substitute(template: string, args: seq<string>): string
    decreases |args|
  {
    if |args| == 0 then template else Substitute(ReplaceFirst(template, args[0]), args[1..])
  }

  /** The pieces joined by `%s`. */
  function Assemble(pieces: seq<string>): string
    requires |pieces| > 0
  {
    if |pieces| == 1 then pieces[0] else pieces[0] + "%s" + Assemble(pieces[1..])
  }

  /**
   * What filling the placeholders left to right means: the `k`-th
   * placeholder becomes the `k`-th argument, and a placeholder with no
   * argument left stays `%s`.
   */
  function Interleave(pieces: seq<string>, args: seq<string>): string
    requires |pieces| > 0
  {
    if |pieces| == 1 then pieces[0]
    else if |args| == 0 then pieces[0] + "%s" + Interleave(pieces[1..], [])
    else pieces[0] + args[0] + Interleave(pieces[1..], args[1..])
  }

  /** `throwError(code, ...args)`: the error it throws. */
  function ThrowError(code: string, args: seq<string>): (e: Error)
    ensures code !in Messages ==> e == Error(Messages["INVALID_MESSAGE_CODE"])
    ensures code in Messages && (forall k :: 0 <= k < |args| ==> Plain(args[k])) ==>
      e == Error(Interleave(MessagePieces[code], args))
  {
    if code in Messages then
      assert (forall k :: 0 <= k < |args| ==> Plain(args[k])) ==>
        Substitute(Messages[code], args) == Interleave(MessagePieces[code], args) by {
        if forall k :: 0 <= k < |args| ==> Plain(args[k]) {
          TemplateFilledInOrder(code, args);
        }
      }
      Error(Substitute(Messages[code], args))
    else
      Error(Messages["INVALID_MESSAGE_CODE"])
  }

  /** Filling a table template means interleaving its pieces with the arguments. */
  lemma TemplateFilledInOrder(code: string, args: seq<string>)
    requires code in Messages
    requires forall k :: 0 <= k < |args| ==> Plain(args[k])
    ensures code in MessagePieces && |MessagePieces[code]| > 0
    ensures Substitute(Messages[code], args) == Interleave(MessagePieces[code], args)
  {
    MessagePiecesAssemble(code);
    SubstituteAssembled("", MessagePieces[code], args);
    assert "" + Assemble(MessagePieces[code]) == Messages[code];
    assert "" + Interleave(MessagePieces[code], args) == Interleave(MessagePieces[code], args);
  }

  lemma NoPercentConcat(a: string, b: string)
    requires NoPercent(a) && NoPercent(b)
    ensures NoPercent(a + b)
  {
  }

  /** A prefix without `%` holds no placeholder and cannot start one. */
  lemma {:induction false} FindAfterPlainPrefix(prefix: string, s: string)
    requires NoPercent(prefix)
    ensures FindPlaceholder(prefix + s) ==
      if FindPlaceholder(s).Some? then Some(|prefix| + FindPlaceholder(s).value) else None
    decreases |prefix|
  {
    if |prefix| > 0 {
      var t := prefix + s;
      assert t[0] == prefix[0] && prefix[0] in prefix;
      assert !PlaceholderAt(t, 0);
      if |t| < 2 {
        assert |s| == 0;
      } else {
        assert t[1..] == prefix[1..] + s;
        assert NoPercent(prefix[1..]) by {
          assert forall c :: c in prefix[1..] ==> c in prefix;
        }
        FindAfterPlainPrefix(prefix[1..], s);
      }
    } else {
      assert prefix + s == s;
    }
  }

  /** A piece without `%` followed by a placeholder: the placeholder comes right after the piece. */
  lemma FindAfterPiece(prefix: string, piece: string, rest: string)
    requires NoPercent(prefix) && NoPercent(piece)
    ensures FindPlaceholder(prefix + piece + "%s" + rest) == Some(|prefix| + |piece|)
  {
    NoPercentConcat(prefix, piece);
    assert prefix + piece + "%s" + rest == (prefix + piece) + ("%s" + rest);
    FindAfterPlainPrefix(prefix + piece, "%s" + rest);
  }

  predicate AllNoPercent(pieces: seq<string>) {
    forall k :: 0 <= k < |pieces| ==> NoPercent(pieces[k])
  }

  lemma {:induction false} AssembleWithoutPlaceholders(prefix: string, pieces: seq<string>)
    requires |pieces| == 1 && NoPercent(prefix) && AllNoPercent(pieces)
    ensures FindPlaceholder(prefix + Assemble(pieces)).None?
  {
    FindAfterPlainPrefix(prefix, Assemble(pieces));
    FindAfterPlainPrefix(pieces[0], "");
    assert pieces[0] + "" == pieces[0];
  }

  /** With nothing left to substitute, the remaining placeholders stay as they are. */
  lemma {:induction false} InterleaveWithoutArgs(pieces: seq<string>)
    requires |pieces| > 0
    ensures Interleave(pieces, []) == Assemble(pieces)
    decreases |pieces|
  {
    if |pieces| > 1 {
      InterleaveWithoutArgs(pieces[1..]);
    }
  }

  /**
   * The loop of `throwError` fills the placeholders in order, provided
   * neither the template's text nor the arguments contain `%` and the
   * arguments hold no `$`: an argument is then inserted as it is and cannot
   * create a placeholder of its own.
   */
  lemma {:induction false} SubstituteAssembled(prefix: string, pieces: seq<string>, args: seq<string>)
    requires |pieces| > 0 && NoPercent(prefix) && AllNoPercent(pieces)
    requires forall k :: 0 <= k < |args| ==> Plain(args[k])
    ensures Substitute(prefix + Assemble(pieces), args) == prefix + Interleave(pieces, args)
    decreases |args|
  {
    if |args| == 0 {
      InterleaveWithoutArgs(pieces);
    } else if |pieces| == 1 {
      AssembleWithoutPlaceholders(prefix, pieces);
      SubstituteWithoutPlaceholders(prefix + Assemble(pieces), args);
    } else {
      var prefix' := prefix + pieces[0] + args[0];
      SubstituteFirstStep(prefix, pieces, args);
      InterleaveFirstStep(prefix, pieces, args);
      NoPercentConcat(prefix, pieces[0]);
      NoPercentConcat(prefix + pieces[0], args[0]);
      SubstituteAssembled(prefix', pieces[1..], args[1..]);
    }
  }

  /** The first argument of the loop fills the first placeholder of an assembled template. */
  lemma SubstituteFirstStep(prefix: string, pieces: seq<string>, args: seq<string>)
    requires |pieces| > 1 && |args| > 0 && NoPercent(prefix) && NoPercent(pieces[0]) && '$' !in args[0]
    ensures Substitute(prefix + Assemble(pieces), args)
      == Substitute(prefix + pieces[0] + args[0] + Assemble(pieces[1..]), args[1..])
  {
    var rest := Assemble(pieces[1..]);
    assert prefix + Assemble(pieces) == prefix + pieces[0] + "%s" + rest;
    ReplaceAfterPiece(prefix, pieces[0], rest, args[0]);
  }

  /** The reference interleaving puts the first argument after the first piece. */
  lemma InterleaveFirstStep(prefix: string, pieces: seq<string>, args: seq<string>)
    requires |pieces| > 1 && |args| > 0
    ensures prefix + Interleave(pieces, args)
      == prefix + pieces[0] + args[0] + Interleave(pieces[1..], args[1..])
  {
  }

  /** Replacing the first placeholder after text without `%`. */
  lemma ReplaceAfterPiece(prefix: string, piece: string, rest: string, arg: string)
    requires NoPercent(prefix) && NoPercent(piece) && '$' !in arg
    ensures ReplaceFirst(prefix + piece + "%s" + rest, arg) == prefix + piece + arg + rest
  {
    var s := prefix + piece + "%s" + rest;
    FindAfterPiece(prefix, piece, rest);
    var i := |prefix| + |piece|;
    assert s[..i] == prefix + piece;
    assert s[i + 2..] == rest;
  }

  /** With no placeholder in the template, the arguments change nothing. */
  lemma {:induction false} SubstituteWithoutPlaceholders(template: string, args: seq<string>)
    requires FindPlaceholder(template).None?
    ensures Substitute(template, args) == template
    decreases |args|
  {
    if |args| > 0 {
      SubstituteWithoutPlaceholders(template, args[1..]);
    }
  }

  /**
   * The only two codes of equal length differ (at their ninth character);
   * a separate step keeps the comparison of the two literals out of the
   * proofs that look both codes up.
   */
  lemma CodesDiffer()
    ensures "INVALID_BUCKET_PREFIX" != "INVALID_OBJECT_TARGET"
  {
    assert "INVALID_BUCKET_PREFIX"[8] != "INVALID_OBJECT_TARGET"[8];
  }

  /** The table entry for `code` is its pieces joined by `%s`, and no piece holds a `%`. */
  predicate TemplateMatches(code: string)
    requires code in Messages && code in MessagePieces
  {
    |MessagePieces[code]| > 0 &&
    Assemble(MessagePieces[code]) == Messages[code] &&
    AllNoPercent(MessagePieces[code])
  }

  lemma BucketPrefixTemplate()
    ensures TemplateMatches("INVALID_BUCKET_PREFIX")
  {
    PiecesOfOne("Invalid Bucket Prefix: ");
  }

  lemma ObjectTargetTemplate()
    ensures TemplateMatches("INVALID_OBJECT_TARGET")
  {
    CodesDiffer();
    PiecesOfOne("Invalid Object target: ");
  }

  lemma MessageCodeTemplate()
    ensures TemplateMatches("INVALID_MESSAGE_CODE")
  {
  }

  lemma NameExistsTemplate()
    ensures TemplateMatches("MODEL_NAME_EXISTS")
  {
    PiecesOfTwo("Cannot redeclare name '", "' in Model");
  }

  lemma LockExistsTemplate()
    ensures TemplateMatches("OBJECT_LOCK_EXISTS")
  {
    PiecesOfOne("Lock exists for: ");
  }

  /** Every template of the table is its pieces joined by `%s`, and no piece holds a `%`. */
  lemma MessagePiecesAssemble(code: string)
    requires code in Messages
    ensures code in MessagePieces && |MessagePieces[code]| > 0
    ensures Assemble(MessagePieces[code]) == Messages[code]
    ensures AllNoPercent(MessagePieces[code])
  {
    if code == "INVALID_BUCKET_PREFIX" {
      BucketPrefixTemplate();
    } else if code == "INVALID_OBJECT_TARGET" {
      ObjectTargetTemplate();
    } else if code == "INVALID_MESSAGE_CODE" {
      MessageCodeTemplate();
    } else if code == "MODEL_NAME_EXISTS" {
      NameExistsTemplate();
    } else {
      LockExistsTemplate();
    }
  }

  /** A template with one placeholder at its end. */
  lemma PiecesOfOne(lead: string)
    ensures Assemble([lead, ""]) == lead + "%s"
  {
    assert [lead, ""][1..] == [""];
  }

  /** A template with one placeholder between two texts. */
  lemma PiecesOfTwo(lead: string, tail: string)
    ensures Assemble([lead, tail]) == lead + "%s" + tail
  {
    assert [lead, tail][1..] == [tail];
  }

  /** Arguments past the last placeholder are ignored. */
  lemma {:induction false} ExtraArgumentsIgnored(pieces: seq<string>, args: seq<string>)
    requires |pieces| > 0 && |args| >= |pieces| - 1
    ensures Interleave(pieces, args) == Interleave(pieces, args[..|pieces| - 1])
    decreases |pieces|
  {
    if |pieces| > 1 {
      ExtraArgumentsIgnored(pieces[1..], args[1..]);
      assert args[..|pieces| - 1][1..] == args[1..][..|pieces| - 2];
    }
  }

  /** One placeholder between two texts, one argument. */
  lemma InterleaveOne(lead: string, tail: string, arg: string)
    ensures Interleave([lead, tail], [arg]) == lead + arg + tail
  {
    assert [lead, tail][1..] == [tail];
    assert [arg][1..] == [];
  }

  /** A two-piece template with one plain argument: the argument goes between the two pieces. */
  lemma FilledWithOne(code: string, lead: string, tail: string, arg: string)
    requires code in Messages && code in MessagePieces && MessagePieces[code] == [lead, tail]
    requires Plain(arg)
    ensures ThrowError(code, [arg]) == Error(lead + arg + tail)
  {
    InterleaveOne(lead, tail, arg);
  }

  /** A code the table holds, with its argument filled in. */
  lemma BucketPrefixExample()
    ensures ThrowError("INVALID_BUCKET_PREFIX", ["foo"]) == Error("Invalid Bucket Prefix: foo")
  {
    FilledWithOne("INVALID_BUCKET_PREFIX", "Invalid Bucket Prefix: ", "", "foo");
  }

  lemma ObjectTargetExample()
    ensures ThrowError("INVALID_OBJECT_TARGET", ["biz"]) == Error("Invalid Object target: biz")
  {
    CodesDiffer();
    FilledWithOne("INVALID_OBJECT_TARGET", "Invalid Object target: ", "", "biz");
  }

  lemma NameExistsExample()
    ensures ThrowError("MODEL_NAME_EXISTS", ["baz"]) == Error("Cannot redeclare name 'baz' in Model")
  {
    FilledWithOne("MODEL_NAME_EXISTS", "Cannot redeclare name '", "' in Model", "baz");
    NameExistsText();
  }

  /** The expected message as one literal; a separate step keeps the concatenation out of the lookup proof. */
  lemma NameExistsText()
    ensures "Cannot redeclare name '" + "baz" + "' in Model" == "Cannot redeclare name 'baz' in Model"
  {
  }

  lemma LockExistsExample()
    ensures ThrowError("OBJECT_LOCK_EXISTS", ["boz"]) == Error("Lock exists for: boz")
  {
    FilledWithOne("OBJECT_LOCK_EXISTS", "Lock exists for: ", "", "boz");
  }

  /** An argument `$&` stands for the matched text, so it puts the placeholder back. */
  lemma MatchedTextArgument(lead: string, rest: string)
    requires NoPercent(lead)
    ensures ReplaceFirst(lead + "%s" + rest, "$&") == lead + "%s" + rest
  {
    var s := lead + "%s" + rest;
    FindAfterPiece("", lead, rest);
    assert "" + lead + "%s" + rest == s;
    assert s[|lead|..|lead| + 2] == "%s";
    assert Expand("$&", s[..|lead|], "%s", s[|lead| + 2..]) == "%s" + Expand("", s[..|lead|], "%s", s[|lead| + 2..]);
    assert s[..|lead|] + "%s" + s[|lead| + 2..] == s;
  }

  /** A one-placeholder template given the argument `$&` comes out unchanged. */
  lemma MatchedTextKeepsTemplate(code: string, lead: string, rest: string)
    requires code in Messages && Messages[code] == lead + "%s" + rest && NoPercent(lead)
    ensures ThrowError(code, ["$&"]) == Error(Messages[code])
  {
    MatchedTextArgument(lead, rest);
    assert ["$&"][1..] == [];
  }

  /**
   * An argument holding `$&` is not inserted as written: `replace` reads it
   * as "the matched text", and the message keeps its `%s`.
   */
  lemma DollarPatternExample()
    ensures ThrowError("OBJECT_LOCK_EXISTS", ["$&"]) == Error("Lock exists for: %s")
  {
    assert "Lock exists for: " + "%s" + "" == "Lock exists for: %s";
    MatchedTextKeepsTemplate("OBJECT_LOCK_EXISTS", "Lock exists for: ", "");
  }

  /** The generic message's own code, with no argument. */
  lemma MessageCodeExample()
    ensures ThrowError("INVALID_MESSAGE_CODE", []) == Error("Invalid message code")
  {
  }

  /**
   * A code the table does not hold gives the generic message, whatever the
   * arguments; `INVALID_MODEL_FIELDS` is such a code.
   */
  lemma UnknownCodeExamples()
    ensures ThrowError("", []) == Error("Invalid message code")
    ensures ThrowError("INVALID_MODEL_FIELDS", ["foo <> bar", "biz"]) == Error("Invalid message code")
  {
  }
}
