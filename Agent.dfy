/** agent/prompt_terraform.py: the fence stripper, the best-practice rewriter, the
    init/validate/plan runner and the bounded fix loop with its diagnostic report. */
module Agent {
  import opened PyStr
  import opened Terraform

  // ---------- clean_code ----------

  const Fence := "```"
  const HclTag := "hcl"
  const Newline := "\n"

  /** Index of the leftmost fence. */
  function FirstFence(content: string): (i: nat)
    requires Contains(content, Fence)
    ensures i + |Fence| <= |content| && StartsWith(content[i..], Fence)
    ensures forall k :: 0 <= k < i ==> !StartsWith(content[k..], Fence)
  {
    IndexOf(content, Fence).value
  }

  /** The text of `rest` up to its leftmost fence, or all of it. */
  function UpToFence(rest: string): (piece: string)
    ensures |piece| <= |rest| && piece == rest[..|piece|]
    ensures !Contains(piece, Fence)
    ensures |piece| == |rest| || StartsWith(rest[|piece|..], Fence)
    ensures forall k :: 0 <= k < |piece| ==> !StartsWith(rest[k..], Fence)
  {
    match IndexOf(rest, Fence)
    case None => AbsentNowhere(rest, Fence); rest
    case Some(j) => NoneBefore(rest, Fence, j); rest[..j]
  }

  /** The text that follows the leftmost fence, up to the next fence or to the end. */
  function FencedPiece(content: string): (piece: string)
    requires Contains(content, Fence)
    ensures !Contains(piece, Fence)
    ensures var start := FirstFence(content) + |Fence|;
      start + |piece| <= |content| && piece == content[start..start + |piece|]
      && (start + |piece| == |content| || StartsWith(content[start + |piece|..], Fence))
      && forall x :: start <= x < start + |piece| ==> !StartsWith(content[x..], Fence)
  {
    var start := FirstFence(content) + |Fence|;
    var piece := UpToFence(content[start..]);
    PieceInContent(content, start, piece);
    piece
  }

  /** The facts about a piece of `content[start..]`, restated on `content`. */
  lemma PieceInContent(content: string, start: nat, piece: string)
    requires start <= |content|
    requires |piece| <= |content| - start && piece == content[start..][..|piece|]
    requires |piece| == |content| - start || StartsWith(content[start..][|piece|..], Fence)
    requires forall k :: 0 <= k < |piece| ==> !StartsWith(content[start..][k..], Fence)
    ensures start + |piece| <= |content| && piece == content[start..start + |piece|]
    ensures start + |piece| == |content| || StartsWith(content[start + |piece|..], Fence)
    ensures forall x :: start <= x < start + |piece| ==> !StartsWith(content[x..], Fence)
  {
    assert content[start..][|piece|..] == content[start + |piece|..];
    forall x | start <= x < start + |piece| ensures !StartsWith(content[x..], Fence) {
      assert content[start..][x - start..] == content[x..];
    }
  }

  /** `content.split("```")[1]` is the fenced piece. */
  lemma {:induction false} SplitGivesFencedPiece(content: string)
    requires Contains(content, Fence)
    ensures |Split(content, Fence)| >= 2 && Split(content, Fence)[1] == FencedPiece(content)
  {
  }

  /** What `clean_code` does with the fenced piece: drop its first line when the piece
      stripped starts with `hcl` (an `IndexError` when there is no second line), then strip. */
  function CleanPiece(piece: string): (r: Result<string>)
    ensures r.Ok? ==> Stripped(r.value)
  {
    if StartsWith(Strip(piece), HclTag) then
      var lines := SplitOnce(piece, Newline);
      if |lines| < 2 then Err(IndexError) else Ok(Strip(lines[1]))
    else Ok(Strip(piece))
  }

  /** `clean_code`: with a fence, clean the first fenced piece; without one, strip. */
  function CleanCode(content: string): (r: Result<string>)
    ensures r.Ok? ==> Stripped(r.value)
  {
    if Contains(content, Fence) then CleanPiece(Split(content, Fence)[1])
    else Ok(Strip(content))
  }

  /** An untagged piece is only stripped. */
  lemma {:induction false} CleanPieceUntagged(piece: string)
    requires !StartsWith(Strip(piece), HclTag)
    ensures CleanPiece(piece) == Ok(Strip(piece))
  {
  }

  /** A tagged piece loses everything up to and including its first newline. */
  lemma {:induction false} CleanPieceTagged(piece: string)
    requires StartsWith(Strip(piece), HclTag) && Contains(piece, Newline)
    ensures CleanPiece(piece) == Ok(Strip(piece[IndexOf(piece, Newline).value + 1..]))
  {
    SplitOnceAfter(piece, Newline);
  }

  /** A tagged piece on one line raises `IndexError`. */
  lemma {:induction false} CleanPieceRaises(piece: string)
    requires StartsWith(Strip(piece), HclTag) && !Contains(piece, Newline)
    ensures CleanPiece(piece) == Err(IndexError)
  {
  }

  /** Without a fence, `clean_code` is `strip()`. */
  lemma {:induction false} CleanCodeUnfenced(content: string)
    requires !Contains(content, Fence)
    ensures CleanCode(content) == Ok(Strip(content))
  {
  }

  /** With a fence, `clean_code` cleans the text between the first fence and the next. */
  lemma {:induction false} CleanCodeFenced(content: string)
    requires Contains(content, Fence)
    ensures CleanCode(content) == CleanPiece(FencedPiece(content))
  {
    SplitGivesFencedPiece(content);
  }

  /** `clean_code` raises exactly when the first fenced piece is tagged and has no newline. */
  lemma {:induction false} CleanCodeRaises(content: string)
    ensures CleanCode(content).Err? <==>
      Contains(content, Fence) && StartsWith(Strip(FencedPiece(content)), HclTag)
      && !Contains(FencedPiece(content), Newline)
  {
    if Contains(content, Fence) {
      CleanCodeFenced(content);
      var piece := FencedPiece(content);
      if !StartsWith(Strip(piece), HclTag) {
        CleanPieceUntagged(piece);
      } else if Contains(piece, Newline) {
        CleanPieceTagged(piece);
      } else {
        CleanPieceRaises(piece);
      }
    }
  }

  /** Text after the first newline of a piece without a fence holds no fence. */
  lemma {:induction false} SecondLineNoFence(piece: string)
    requires !Contains(piece, Fence) && Contains(piece, Newline)
    ensures !Contains(SplitOnce(piece, Newline)[1], Fence)
  {
    var lines := SplitOnce(piece, Newline);
    assert piece == lines[0] + Newline + lines[1] + "";
    if Contains(lines[1], Fence) {
      ContainsInMiddle(lines[0] + Newline, lines[1], "", Fence);
    }
  }

  /** Cleaning a piece without a fence gives text without a fence. */
  lemma {:induction false} CleanPieceLeavesNoFence(piece: string)
    requires !Contains(piece, Fence) && CleanPiece(piece).Ok?
    ensures !Contains(CleanPiece(piece).value, Fence)
  {
    if StartsWith(Strip(piece), HclTag) {
      SecondLineNoFence(piece);
      StripKeepsAbsent(SplitOnce(piece, Newline)[1], Fence);
    } else {
      StripKeepsAbsent(piece, Fence);
    }
  }

  /** What `clean_code` returns holds no fence. */
  lemma {:induction false} CleanCodeLeavesNoFence(content: string)
    requires CleanCode(content).Ok?
    ensures !Contains(CleanCode(content).value, Fence)
  {
    if Contains(content, Fence) {
      CleanPieceLeavesNoFence(Split(content, Fence)[1]);
    } else {
      StripKeepsAbsent(content, Fence);
    }
  }

  /** Cleaning cleaned code changes nothing. */
  lemma {:induction false} CleanCodeIdempotent(content: string)
    requires CleanCode(content).Ok?
    ensures CleanCode(CleanCode(content).value) == CleanCode(content)
  {
    CleanCodeLeavesNoFence(content);
    StrippedFixpoint(CleanCode(content).value);
  }

  /** The first fence after a text without backquotes is right after that text. */
  lemma {:induction false} FenceAfter(pre: string, rest: string)
    requires '`' !in pre
    ensures IndexOf(pre + Fence + rest, Fence) == Some(|pre|)
  {
    var c := pre + Fence + rest;
    assert c[..|pre|] == pre;
    assert c[|pre|..][..|Fence|] == Fence;
    FirstCharAbsent(c, Fence, |pre|);
    IndexOfAt(c, Fence, |pre|);
  }

  /** The fenced piece runs from the first fence to the next when neither the text before it
      nor the piece holds a backquote. */
  lemma {:induction false} FencedPieceOf(pre: string, piece: string, post: string)
    requires '`' !in pre && '`' !in piece
    ensures Contains(pre + Fence + piece + Fence + post, Fence)
    ensures FencedPiece(pre + Fence + piece + Fence + post) == piece
  {
    var c := pre + Fence + piece + Fence + post;
    FenceAfter(pre, piece + Fence + post);
    assert c == pre + Fence + (piece + Fence + post);
    var rest := c[|pre| + |Fence|..];
    assert rest == piece + Fence + post;
    FenceAfter(piece, post);
    assert rest[..|piece|] == piece;
  }

  /** A text that starts with `hcl` and a newline strips to a text that starts with `hcl`. */
  lemma {:induction false} TaggedStrip(body: string)
    ensures StartsWith(Strip(HclTag + Newline + body), HclTag)
  {
    var t := HclTag + Newline + body;
    assert !IsSpace(t[0]) && !IsSpace(t[2]);
    var l := LStrip(t);
    assert l == t;
    var r := RStrip(l);
    assert t == r + t[|r|..];
    assert r[..3] == t[..3];
  }

  /** In a piece that starts with `hcl` and a newline, the first newline is at index 3. */
  lemma {:induction false} NewlineAfterTag(body: string)
    ensures IndexOf(HclTag + Newline + body, Newline) == Some(3)
  {
    var piece := HclTag + Newline + body;
    assert piece[..3] == "hcl";
    assert Newline[0] !in piece[..3];
    FirstCharAbsent(piece, Newline, 3);
    assert piece[3..][..1] == Newline;
    IndexOfAt(piece, Newline, 3);
  }

  /** A piece that starts with `hcl` and a newline comes out as the rest, stripped. */
  lemma {:induction false} CleanPieceTagLine(body: string)
    ensures CleanPiece(HclTag + Newline + body) == Ok(Strip(body))
  {
    var piece := HclTag + Newline + body;
    TaggedStrip(body);
    NewlineAfterTag(body);
    CleanPieceTagged(piece);
    assert piece[4..] == body;
  }

  /** A block fenced as `hcl` comes out as its stripped body. */
  lemma {:induction false} CleanCodeTaggedBlock(pre: string, body: string, post: string)
    requires '`' !in pre && '`' !in body
    ensures CleanCode(pre + Fence + HclTag + Newline + body + Fence + post) == Ok(Strip(body))
  {
    var piece := HclTag + Newline + body;
    assert '`' !in HclTag + Newline;
    assert pre + Fence + HclTag + Newline + body + Fence + post == pre + Fence + piece + Fence + post;
    FencedPieceOf(pre, piece, post);
    CleanCodeFenced(pre + Fence + piece + Fence + post);
    CleanPieceTagLine(body);
  }

  // ---------- enforce_best_practices ----------

  const DeprecatedPlan := "azurerm_app_service_plan"
  const ServicePlan := "azurerm_service_plan"
  const FileBase64 := "filebase64"
  const DataWord := "data"
  const Base64Call := "filebase64("
  const CertPlaceholder := "key_vault_secret_id = " + "azurerm_key_vault_secret" + ".ssl_cert.id"

  /** End of the run of whitespace that starts at `i`: what `\s*` consumes there. */
  function SkipSpace(s: string, i: nat): (j: nat)
    requires i <= |s|
    ensures i <= j <= |s| && (j == |s| || !IsSpace(s[j]))
    decreases |s| - i
  {
    if i < |s| && IsSpace(s[i]) then SkipSpace(s, i + 1) else i
  }

  /** Everything `SkipSpace` skips is whitespace. */
  lemma {:induction false} SkipSpaceSkipsSpace(s: string, i: nat)
    requires i <= |s|
    ensures forall k :: i <= k < SkipSpace(s, i) ==> IsSpace(s[k])
    decreases |s| - i
  {
    if i < |s| && IsSpace(s[i]) {
      SkipSpaceSkipsSpace(s, i + 1);
    }
  }

  /** First `)` at or after `i`, or `|s|`: where `[^\)]*` stops. */
  function NextCloseParen(s: string, i: nat): (j: nat)
    requires i <= |s|
    ensures i <= j <= |s| && (j == |s| || s[j] == ')')
    decreases |s| - i
  {
    if i < |s| && s[i] != ')' then NextCloseParen(s, i + 1) else i
  }

  /** `NextCloseParen` passes no `)`. */
  lemma {:induction false} NextCloseParenSkips(s: string, i: nat)
    requires i <= |s|
    ensures forall k :: i <= k < NextCloseParen(s, i) ==> s[k] != ')'
    decreases |s| - i
  {
    if i < |s| && s[i] != ')' {
      NextCloseParenSkips(s, i + 1);
    }
  }

  /** Length of the match of `data\s*=\s*filebase64\([^\)]*\)` at the start of `t`, or 0
      when there is none. */
  function CertMatchLen(t: string): (n: nat)
    ensures n <= |t|
  {
    if !StartsWith(t, DataWord) then 0
    else
      var i := SkipSpace(t, |DataWord|);
      if i == |t| || t[i] != '=' then 0
      else
        var j := SkipSpace(t, i + 1);
        if !StartsWith(t[j..], Base64Call) then 0
        else
          var k := NextCloseParen(t, j + |Base64Call|);
          if k == |t| then 0 else k + 1
  }

  /** Reference reading of the pattern: `t` is `data`, whitespace, `=`, whitespace,
      `filebase64(`, an argument without `)`, and `)`. */
  predicate IsCertMatch(t: string, w1: string, w2: string, arg: string) {
    t == DataWord + w1 + "=" + w2 + Base64Call + arg + ")"
    && AllSpace(w1) && AllSpace(w2) && ')' !in arg
  }

  /** A run of whitespace from `i` that ends at `e` is what `SkipSpace` skips. */
  lemma {:induction false} SkipSpaceTo(s: string, i: nat, e: nat)
    requires i <= e <= |s| && (e == |s| || !IsSpace(s[e]))
    requires forall k :: i <= k < e ==> IsSpace(s[k])
    ensures SkipSpace(s, i) == e
    decreases e - i
  {
    if i < e {
      SkipSpaceTo(s, i + 1, e);
    }
  }

  /** A `)` at `e` with none from `i` on before it is what `NextCloseParen` finds. */
  lemma {:induction false} NextCloseParenAt(s: string, i: nat, e: nat)
    requires i <= e < |s| && s[e] == ')'
    requires forall k :: i <= k < e ==> s[k] != ')'
    ensures NextCloseParen(s, i) == e
    decreases e - i
  {
    if i < e {
      NextCloseParenAt(s, i + 1, e);
    }
  }

  /** The positions the matcher finds in a text it matches: the `=`, the start of
      `filebase64(` and the closing `)`. */
  lemma CertMatchShape(t: string) returns (i: nat, j: nat, k: nat)
    requires CertMatchLen(t) > 0
    ensures |DataWord| <= i < j && j + |Base64Call| <= k < |t| && CertMatchLen(t) == k + 1
    ensures t[..|DataWord|] == DataWord && t[i] == '=' && t[k] == ')'
    ensures t[j..j + |Base64Call|] == Base64Call
    ensures forall x :: |DataWord| <= x < i ==> IsSpace(t[x])
    ensures forall x :: i + 1 <= x < j ==> IsSpace(t[x])
    ensures forall x :: j + |Base64Call| <= x < k ==> t[x] != ')'
  {
    i := SkipSpace(t, |DataWord|);
    j := SkipSpace(t, i + 1);
    k := NextCloseParen(t, j + |Base64Call|);
    SkipSpaceSkipsSpace(t, |DataWord|);
    SkipSpaceSkipsSpace(t, i + 1);
    NextCloseParenSkips(t, j + |Base64Call|);
    StartsWithSlice(t, j, Base64Call);
  }

  /** Every match the matcher reports is an instance of the pattern. */
  lemma CertMatchSound(t: string) returns (w1: string, w2: string, arg: string)
    requires CertMatchLen(t) > 0
    ensures IsCertMatch(t[..CertMatchLen(t)], w1, w2, arg)
  {
    var i, j, k := CertMatchShape(t);
    w1, w2, arg := t[|DataWord|..i], t[i + 1..j], t[j + |Base64Call|..k];
    SliceAllSpace(t, |DataWord|, i);
    SliceAllSpace(t, i + 1, j);
    SliceAvoids(t, j + |Base64Call|, k, ')');
    assert t[i..i + 1] == "=";
    assert t[k..k + 1] == ")";
    SliceCut(t, 0, k, k + 1);
    SliceCut(t, 0, j + |Base64Call|, k);
    SliceCut(t, 0, j, j + |Base64Call|);
    SliceCut(t, 0, i + 1, j);
    SliceCut(t, 0, i, i + 1);
    SliceCut(t, 0, |DataWord|, i);
    assert t[..k + 1] == t[0..k + 1];
    assert t[0..|DataWord|] == DataWord;
  }

  /** Where the parts of a pattern instance sit in a text that starts with it. */
  lemma CertLayout(w1: string, w2: string, arg: string, rest: string)
    ensures var t := DataWord + w1 + "=" + w2 + Base64Call + arg + ")" + rest;
      var i := |DataWord| + |w1|;
      var j := i + 1 + |w2|;
      var k := j + |Base64Call| + |arg|;
      k < |t| && StartsWith(t, DataWord)
      && (forall x :: |DataWord| <= x < i ==> t[x] == w1[x - |DataWord|])
      && t[i] == '='
      && (forall x :: i + 1 <= x < j ==> t[x] == w2[x - i - 1])
      && StartsWith(t[j..], Base64Call)
      && (forall x :: j + |Base64Call| <= x < k ==> t[x] == arg[x - j - |Base64Call|])
      && t[k] == ')'
  {
    var t := DataWord + w1 + "=" + w2 + Base64Call + arg + ")" + rest;
    var j := |DataWord| + |w1| + 1 + |w2|;
    assert t[..|DataWord|] == DataWord;
    assert t[j..][..|Base64Call|] == Base64Call;
  }

  /** Every instance of the pattern at the start of a text is the match found there, whatever
      follows it. */
  lemma CertMatchComplete(w1: string, w2: string, arg: string, rest: string)
    requires AllSpace(w1) && AllSpace(w2) && ')' !in arg
    ensures var m := DataWord + w1 + "=" + w2 + Base64Call + arg + ")";
      CertMatchLen(m + rest) == |m|
  {
    var m := DataWord + w1 + "=" + w2 + Base64Call + arg + ")";
    var t := m + rest;
    var i := |DataWord| + |w1|;
    var j := i + 1 + |w2|;
    var k := j + |Base64Call| + |arg|;
    assert t == DataWord + w1 + "=" + w2 + Base64Call + arg + ")" + rest;
    CertLayout(w1, w2, arg, rest);
    SkipSpaceTo(t, |DataWord|, i);
    assert t[j] == Base64Call[0];
    SkipSpaceTo(t, i + 1, j);
    NextCloseParenAt(t, j + |Base64Call|, k);
  }

  /** The matcher never claims more than its input. */
  lemma CertMatcherFits()
    ensures MatcherFits(CertMatchLen)
  {
    assert forall t :: CertMatchLen(t) <= |t|;
  }

  /** The `re.sub` call: each leftmost certificate assignment becomes the Key Vault reference. */
  function ReplaceCerts(s: string): string {
    CertMatcherFits();
    Substitute(s, CertMatchLen, CertPlaceholder)
  }

  /** `enforce_best_practices`: rename the deprecated plan resource everywhere; then, when
      `filebase64` occurs, replace each certificate-from-file assignment by the Key Vault
      reference. */
  function EnforceBestPractices(code: string): string {
    var renamed := Replace(code, DeprecatedPlan, ServicePlan);
    if Contains(renamed, FileBase64) then ReplaceCerts(renamed) else renamed
  }

  /** The plan rename can neither leave nor create an occurrence of the deprecated name. */
  lemma PlanRenameOverlaps()
    ensures NoSuffixMeets(DeprecatedPlan, ServicePlan) && NoneStartsIn(DeprecatedPlan, ServicePlan)
  {
    forall j | 0 < j < |DeprecatedPlan| ensures !PrefixCompatible(DeprecatedPlan[j..], ServicePlan) {
      if j == 8 || j == 22 {
        MismatchIncompatible(DeprecatedPlan[j..], ServicePlan, 1);
      } else {
        MismatchIncompatible(DeprecatedPlan[j..], ServicePlan, 0);
      }
    }
    forall i | 0 <= i < |ServicePlan| ensures !PrefixCompatible(ServicePlan[i..], DeprecatedPlan) {
      if i == 0 {
        MismatchIncompatible(ServicePlan[i..], DeprecatedPlan, 8);
      } else if i == 18 {
        MismatchIncompatible(ServicePlan[i..], DeprecatedPlan, 1);
      } else {
        MismatchIncompatible(ServicePlan[i..], DeprecatedPlan, 0);
      }
    }
  }

  /** The Key Vault reference can neither complete nor hold the deprecated name. */
  lemma PlaceholderOverlaps()
    ensures NoSuffixMeets(DeprecatedPlan, CertPlaceholder)
    ensures NoneStartsIn(DeprecatedPlan, CertPlaceholder)
  {
    forall j | 0 < j < |DeprecatedPlan|
      ensures !PrefixCompatible(DeprecatedPlan[j..], CertPlaceholder)
    {
      MismatchIncompatible(DeprecatedPlan[j..], CertPlaceholder, 0);
    }
    forall i | 0 <= i < |CertPlaceholder|
      ensures !PrefixCompatible(CertPlaceholder[i..], DeprecatedPlan)
    {
      if i == 5 || i == 35 {
        MismatchIncompatible(CertPlaceholder[i..], DeprecatedPlan, 1);
      } else if i == 22 {
        MismatchIncompatible(CertPlaceholder[i..], DeprecatedPlan, 8);
      } else {
        MismatchIncompatible(CertPlaceholder[i..], DeprecatedPlan, 0);
      }
    }
  }

  /** The output never mentions `azurerm_app_service_plan`. */
  lemma EnforceNoDeprecatedPlan(code: string)
    ensures !Contains(EnforceBestPractices(code), DeprecatedPlan)
  {
    PlanRenameOverlaps();
    var renamed := Replace(code, DeprecatedPlan, ServicePlan);
    ReplaceRemovesAll(code, DeprecatedPlan, ServicePlan);
    if Contains(renamed, FileBase64) {
      CertMatcherFits();
      PlaceholderOverlaps();
      SubstituteKeepsAbsent(renamed, CertMatchLen, CertPlaceholder, DeprecatedPlan);
    }
  }

  /** Code with neither the deprecated name nor `filebase64` is returned as it is. */
  lemma EnforceUnchanged(code: string)
    requires !Contains(code, DeprecatedPlan) && !Contains(code, FileBase64)
    ensures EnforceBestPractices(code) == code
  {
    ReplaceAbsent(code, DeprecatedPlan, ServicePlan);
  }

  /** After the rename, text in which no certificate assignment starts anywhere is kept,
      `filebase64` or not. */
  lemma EnforceKeepsUnmatched(code: string)
    requires var renamed := Replace(code, DeprecatedPlan, ServicePlan);
      forall j :: 0 <= j < |renamed| ==> CertMatchLen(renamed[j..]) == 0
    ensures EnforceBestPractices(code) == Replace(code, DeprecatedPlan, ServicePlan)
  {
    var renamed := Replace(code, DeprecatedPlan, ServicePlan);
    if Contains(renamed, FileBase64) {
      ReplaceCertsNoMatch(renamed);
    }
  }

  /** A certificate assignment contains `filebase64`. */
  lemma CertMatchHasFileBase64(s: string, k: nat)
    requires k <= |s| && CertMatchLen(s[k..]) > 0
    ensures Contains(s, FileBase64)
  {
    var t := s[k..];
    var i := SkipSpace(t, |DataWord|);
    var j := SkipSpace(t, i + 1);
    assert t[j..][..|FileBase64|] == Base64Call[..|FileBase64|];
    ContainsAt(t, FileBase64, j);
    assert t == s[k..|s|];
    ContainsSlice(s, k, |s|, FileBase64);
  }

  /** `re.sub` at the leftmost certificate assignment. */
  lemma ReplaceCertsAtLeftmost(s: string, k: nat)
    requires k < |s| && CertMatchLen(s[k..]) > 0
    requires forall j :: 0 <= j < k ==> CertMatchLen(s[j..]) == 0
    ensures ReplaceCerts(s)
      == s[..k] + CertPlaceholder + ReplaceCerts(s[k + CertMatchLen(s[k..])..])
  {
    CertMatcherFits();
    var m: string -> nat := CertMatchLen;
    var tail := s[k + CertMatchLen(s[k..])..];
    assert m(s[k..]) == CertMatchLen(s[k..]);
    forall j | 0 <= j < k ensures m(s[j..]) == 0 {
      assert CertMatchLen(s[j..]) == 0;
    }
    SubstituteAtLeftmost(s, m, CertPlaceholder, k);
    assert s[k + m(s[k..])..] == tail;
    calc {
      ReplaceCerts(s);
      Substitute(s, m, CertPlaceholder);
      s[..k] + CertPlaceholder + Substitute(s[k + m(s[k..])..], m, CertPlaceholder);
      s[..k] + CertPlaceholder + Substitute(tail, m, CertPlaceholder);
      s[..k] + CertPlaceholder + ReplaceCerts(tail);
    }
  }

  /** `re.sub` without a match anywhere returns its input. */
  lemma ReplaceCertsNoMatch(s: string)
    requires forall j :: 0 <= j < |s| ==> CertMatchLen(s[j..]) == 0
    ensures ReplaceCerts(s) == s
  {
    CertMatcherFits();
    var m: string -> nat := CertMatchLen;
    forall j | 0 <= j < |s| ensures m(s[j..]) == 0 {
      assert CertMatchLen(s[j..]) == 0;
    }
    SubstituteNoMatch(s, m, CertPlaceholder);
  }

  /** The leftmost certificate assignment after the rename is replaced by the Key Vault
      reference; the text before it is kept and the scan resumes after it. */
  lemma EnforceRewritesFirstCertMatch(code: string, k: nat)
    requires var renamed := Replace(code, DeprecatedPlan, ServicePlan);
      k < |renamed| && CertMatchLen(renamed[k..]) > 0
      && forall j :: 0 <= j < k ==> CertMatchLen(renamed[j..]) == 0
    ensures var renamed := Replace(code, DeprecatedPlan, ServicePlan);
      EnforceBestPractices(code) == renamed[..k] + CertPlaceholder
        + ReplaceCerts(renamed[k + CertMatchLen(renamed[k..])..])
  {
    var renamed := Replace(code, DeprecatedPlan, ServicePlan);
    var rest := ReplaceCerts(renamed[k + CertMatchLen(renamed[k..])..]);
    var e := EnforceBestPractices(code);
    assert e == renamed[..k] + CertPlaceholder + rest by {
      CertMatchHasFileBase64(renamed, k);
      EnforceWithFileBase64(code, renamed);
      ReplaceCertsAtLeftmost(renamed, k);
    }
  }

  /** Enforcing again changes nothing when no certificate assignment is left. */
  lemma EnforceIdempotentWhenNoMatch(code: string)
    requires var r := EnforceBestPractices(code);
      forall j :: 0 <= j < |r| ==> CertMatchLen(r[j..]) == 0
    ensures EnforceBestPractices(EnforceBestPractices(code)) == EnforceBestPractices(code)
  {
    var r := EnforceBestPractices(code);
    EnforceNoDeprecatedPlan(code);
    ReplaceAbsent(r, DeprecatedPlan, ServicePlan);
    EnforceKeepsUnmatched(r);
  }

  /** Enforcement when the renamed code has no `filebase64`. */
  lemma EnforceWithoutFileBase64(code: string, renamed: string)
    requires Replace(code, DeprecatedPlan, ServicePlan) == renamed && !Contains(renamed, FileBase64)
    ensures EnforceBestPractices(code) == renamed
  {
  }

  /** Enforcement when the renamed code has `filebase64`. */
  lemma EnforceWithFileBase64(code: string, renamed: string)
    requires Replace(code, DeprecatedPlan, ServicePlan) == renamed && Contains(renamed, FileBase64)
    ensures EnforceBestPractices(code) == ReplaceCerts(renamed)
  {
  }

  /** Between a prefix and a suffix that hold neither `a` nor `f`, the deprecated name is
      renamed and nothing else changes. */
  lemma EnforceRenamesPlan(pre: string, post: string)
    requires 'a' !in pre && 'a' !in post && 'f' !in pre && 'f' !in post
    ensures EnforceBestPractices(pre + DeprecatedPlan + post) == pre + ServicePlan + post
  {
    ReplaceSingle(pre, DeprecatedPlan, post, ServicePlan);
    assert 'f' !in ServicePlan;
    CharAbsent(pre + ServicePlan + post, FileBase64, 0);
    EnforceWithoutFileBase64(pre + DeprecatedPlan + post, pre + ServicePlan + post);
  }

  /** `resource "azurerm_app_service_plan" "x" {}` and what it should become. */
  const PlanExample := "resource \"" + DeprecatedPlan + "\" \"x\" {}"
  const PlanExampleFixed := "resource \"" + ServicePlan + "\" \"x\" {}"

  lemma EnforceRenamesExample()
    ensures EnforceBestPractices(PlanExample) == PlanExampleFixed
  {
    EnforceRenamesPlan("resource \"", "\" \"x\" {}");
  }

  /** ```` ```hcl\nresource "azurerm_app_service_plan" "x" {}\n``` ````: a fenced, tagged
      completion holding the deprecated plan resource. */
  const FencedPlanExample := Fence + HclTag + Newline + PlanExample + Newline + Fence

  /** A one-line body fenced as `hcl`, with newlines around it, comes out as that line. */
  lemma CleanCodeFencedLine(line: string)
    requires '`' !in line && Stripped(line)
    ensures CleanCode(Fence + HclTag + Newline + line + Newline + Fence) == Ok(line)
  {
    var body := line + Newline;
    assert '`' !in body;
    assert Fence + HclTag + Newline + line + Newline + Fence
      == "" + Fence + HclTag + Newline + body + Fence + "";
    StripTrailingNewline(line);
    CleanCodeTaggedBlock("", body, "");
  }

  lemma StripTrailingNewline(line: string)
    requires Stripped(line)
    ensures Strip(line + Newline) == line
  {
    assert IsSpace(Newline[0]);
    StripUnique("", line, Newline);
    assert "" + line + Newline == line + Newline;
  }

  /** Cleaning the fenced example drops the fences, the tag line and the trailing newline. */
  lemma CleanCodeExample()
    ensures CleanCode(FencedPlanExample) == Ok(PlanExample)
  {
    assert '`' !in PlanExample;
    CleanCodeFencedLine(PlanExample);
  }

  /** Post-processing is cleaning followed by enforcing. */
  lemma PostProcessOk(raw: string, code: string)
    requires CleanCode(raw) == Ok(code)
    ensures PostProcess(raw) == Ok(EnforceBestPractices(code))
  {
  }

  /** The fenced example end to end: the fence and the `hcl` tag line go, the trailing
      newline is stripped and the plan resource is renamed. */
  lemma PostProcessExample()
    ensures PostProcess(FencedPlanExample) == Ok(PlanExampleFixed)
  {
    CleanCodeExample();
    PostProcessOk(FencedPlanExample, PlanExample);
    EnforceRenamesExample();
  }

  /** `data=filebase64()`: the shortest certificate assignment. */
  const BareCert := DataWord + "=" + Base64Call + ")"

  lemma BareCertMatches(rest: string)
    ensures CertMatchLen(BareCert + rest) == |BareCert|
  {
    CertMatchComplete("", "", "", rest);
    assert DataWord + "" + "=" + "" + Base64Call + "" + ")" == BareCert;
  }

  /** A text without `d` holds no certificate assignment. */
  lemma NoCertWithoutD(t: string)
    requires 'd' !in t
    ensures forall j :: 0 <= j < |t| ==> CertMatchLen(t[j..]) == 0
  {
    forall j | 0 <= j < |t| ensures CertMatchLen(t[j..]) == 0 {
      assert t[j..][0] == t[j];
      assert t[j] in t;
      HeadMismatch(t[j..], DataWord);
    }
  }

  /** `data=filebase64()ata=filebase64()`. */
  const Doubled := BareCert + BareCert[1..]

  /** `Doubled` has no `z`, so the rename leaves it alone, and it holds `filebase64`. */
  lemma DoubledRenamed()
    ensures Replace(Doubled, DeprecatedPlan, ServicePlan) == Doubled
    ensures Contains(Doubled, FileBase64)
  {
    assert 'z' !in Doubled;
    CharAbsent(Doubled, DeprecatedPlan, 1);
    ReplaceAbsent(Doubled, DeprecatedPlan, ServicePlan);
    BareCertMatches(BareCert[1..]);
    assert Doubled[0..] == Doubled;
    CertMatchHasFileBase64(Doubled, 0);
  }

  /** `re.sub` on `Doubled` replaces the leading assignment and keeps the rest. */
  lemma DoubledCerts()
    ensures ReplaceCerts(Doubled) == CertPlaceholder + BareCert[1..]
  {
    var t := BareCert[1..];
    BareCertMatches(t);
    assert Doubled[0..] == Doubled;
    ReplaceCertsAtLeftmost(Doubled, 0);
    assert Doubled[|BareCert|..] == t;
    TailKept();
  }

  /** `ata=filebase64()` has no `d`, so `re.sub` keeps it. */
  lemma TailKept()
    ensures ReplaceCerts(BareCert[1..]) == BareCert[1..]
  {
    assert 'd' !in BareCert[1..];
    NoCertWithoutD(BareCert[1..]);
    ReplaceCertsNoMatch(BareCert[1..]);
  }

  /** Of `data=filebase64()ata=filebase64()` only the leading assignment is replaced. */
  lemma EnforceLeavesTail()
    ensures EnforceBestPractices(Doubled) == Residue
  {
    DoubledRenamed();
    EnforceWithFileBase64(Doubled, Doubled);
    DoubledCerts();
  }

  /** No certificate assignment starts inside the Key Vault reference before its last
      character. */
  lemma PlaceholderHasNoData(r: string)
    requires |r| > |CertPlaceholder| && r[..|CertPlaceholder|] == CertPlaceholder
    ensures forall j :: 0 <= j < |CertPlaceholder| - 1 ==> CertMatchLen(r[j..]) == 0
  {
    forall j | 0 <= j < |CertPlaceholder| - 1 ensures CertMatchLen(r[j..]) == 0 {
      assert r[j..][0] == CertPlaceholder[j] && r[j..][1] == CertPlaceholder[j + 1];
      if j == 18 {
        MismatchIncompatible(r[j..], DataWord, 1);
      } else {
        MismatchIncompatible(r[j..], DataWord, 0);
      }
    }
  }

  /** What `data=filebase64()ata=filebase64()` enforces to. */
  const Residue := CertPlaceholder + BareCert[1..]

  /** The reference's final `d` and the `ata=filebase64()` after it form an assignment. */
  lemma ResidueMatch()
    ensures CertMatchLen(Residue[|CertPlaceholder| - 1..]) == |BareCert|
  {
    assert Residue[|CertPlaceholder| - 1..] == BareCert + "";
    BareCertMatches("");
  }

  /** The residue has no `p`, so the rename leaves it alone. */
  lemma ResidueRenamed()
    ensures Replace(Residue, DeprecatedPlan, ServicePlan) == Residue
  {
    assert 'p' !in Residue;
    CharAbsent(Residue, DeprecatedPlan, 9);
    ReplaceAbsent(Residue, DeprecatedPlan, ServicePlan);
  }

  /** The Key Vault reference ends in `d`: followed by `ata=filebase64()` it completes a new
      assignment, which another run replaces. */
  lemma ReenforceChanges()
    ensures CertMatchLen(Residue[|CertPlaceholder| - 1..]) > 0
    ensures EnforceBestPractices(Residue) != Residue
  {
    var r := Residue;
    var k := |CertPlaceholder| - 1;
    ResidueMatch();
    ResidueRenamed();
    CertMatchHasFileBase64(r, k);
    EnforceWithFileBase64(r, r);
    assert r[..|CertPlaceholder|] == CertPlaceholder;
    PlaceholderHasNoData(r);
    ReplaceCertsAtLeftmost(r, k);
  }

  /** Enforcement is not idempotent, and an assignment can survive it. */
  lemma EnforceNotIdempotent()
    ensures var r := EnforceBestPractices(Doubled);
      r == Residue && CertMatchLen(r[|CertPlaceholder| - 1..]) > 0
      && EnforceBestPractices(r) != r
  {
    EnforceLeavesTail();
    ReenforceChanges();
  }

  // ---------- run_terraform ----------

  const Commands := ["terraform init", "terraform validate", "terraform plan"]

  /** What `run_terraform` returns when the CLI behaves as `exec`. */
  function PlanError(exec: string -> ProcessResult): Option<string> {
    RunAll(Commands, exec).error
  }

  /** `run_terraform` reports the stderr of the first of `init`, `validate` and `plan` that
      exits non-zero, and `None` when all three succeed. */
  lemma {:induction false} PlanErrorCases(exec: string -> ProcessResult)
    ensures PlanError(exec) ==
      if exec("terraform init").returncode != 0 then Some(exec("terraform init").stderr)
      else if exec("terraform validate").returncode != 0 then Some(exec("terraform validate").stderr)
      else if exec("terraform plan").returncode != 0 then Some(exec("terraform plan").stderr)
      else None
  {
    assert Commands[1..] == ["terraform validate", "terraform plan"];
    assert Commands[1..][1..] == ["terraform plan"];
    assert Commands[1..][1..][1..] == [];
  }

  /** `run_terraform`: `init`, `validate` and `plan` in order, stopping at the first failure. */
  method RunTerraform(exec: string -> ProcessResult) returns (error: Option<string>)
    ensures error == PlanError(exec)
  {
    var ran;
    error, ran := RunCommands(Commands, exec);
  }

  // ---------- __main__ ----------

  const MaxRetries: nat := 3

  /** The deprecation warnings added to the system prompt of a fix request. */
  const FixWarnings := "\nIMPORTANT: Do not use deprecated resources. "
    + "Use azurerm_service_plan instead of azurerm_app_service_plan. "
    + "Use Key Vault for certs/secrets instead of filebase64."

  /** The prompts of a run: the system and user prompts as `load_prompt` returns them (the
      file's text, stripped), the system prompt of a fix request, and the fix template,
      `FIX_PROMPT_TEMPLATE.format` applied to the error and the code. */
  datatype Prompts = Prompts(system: string, user: string, fixSystem: string,
                             fixFormat: (string, string) -> string)

  /** The prompts of the script: a fix request's system prompt is the standard one followed
      by the deprecation warnings. */
  function ScriptPrompts(system: string, user: string, fixFormat: (string, string) -> string)
    : (p: Prompts)
    ensures p.system == system && p.user == user && p.fixFormat == fixFormat
    ensures |p.fixSystem| > |system| && p.fixSystem[..|system|] == system
  {
    Prompts(system, user, system + FixWarnings, fixFormat)
  }

  /** `clean_code` then `enforce_best_practices`. */
  function PostProcess(raw: string): (r: Result<string>)
    ensures r.Ok? ==> !Contains(r.value, DeprecatedPlan)
  {
    match CleanCode(raw)
    case Err(e) => Err(e)
    case Ok(code) => EnforceNoDeprecatedPlan(code); Ok(EnforceBestPractices(code))
  }

  /** The CLI's verdict on the `n`-th run, with `code` in `main.tf`. */
  function RunPlan(o: Oracles, n: nat, code: string): Option<string> {
    PlanError(RunOf(o, n, code))
  }

  /** The steps the loop is made of: `generate(n, system, user)` is completion number `n`,
      `post` what is done to a completion before it is saved, and `plan(n, code)` what call
      number `n` of `run_terraform` returns with `code` in `main.tf`. */
  datatype Steps = Steps(
    generate: (nat, string, string) -> string,
    post: string -> Result<string>,
    plan: (nat, string) -> Option<string>)

  /** The steps of this script: the completion service, `clean_code` then
      `enforce_best_practices`, and the `init`/`validate`/`plan` runner. */
  function AgentSteps(o: Oracles): Steps {
    Steps(o.complete, PostProcess, (n: nat, code: string) => RunPlan(o, n, code))
  }

  /** How a run of the script ends: an uncaught `IndexError` from `clean_code` during
      generation number `retries`, with the code saved last (if any), or the loop's exit with
      its counter, the last error and the last code. */
  datatype Outcome =
    | Crashed(retries: nat, saved: Option<string>)
    | Finished(retries: nat, error: Option<string>, tfCode: string)

  /** The retry loop from a state with counter `retries`, last error `error` and last code
      `tfCode`, which is also what `main.tf` holds. */
  function FixLoop(s: Steps, p: Prompts, retries: nat, error: Option<string>, tfCode: string)
    : Outcome
    requires retries <= MaxRetries
    decreases MaxRetries - retries
  {
    if Truthy(error) && retries < MaxRetries then
      var n := retries + 1;
      match s.post(s.generate(n, p.fixSystem, p.fixFormat(error.value, tfCode)))
      case Err(_) => Crashed(n, Some(tfCode))
      case Ok(fixed) => FixLoop(s, p, n, s.plan(n, fixed), fixed)
    else Finished(retries, error, tfCode)
  }

  /** The whole `__main__` block up to the report. */
  function Pipeline(s: Steps, p: Prompts): Outcome {
    match s.post(s.generate(0, p.system, p.user))
    case Err(_) => Crashed(0, None)
    case Ok(tfCode) => FixLoop(s, p, 0, s.plan(0, tfCode), tfCode)
  }

  /** The report written at the end of a run, if any: only when the loop ends with a
      truthy error. */
  function FinalReport(f: Outcome): Option<string> {
    if f.Finished? && Truthy(f.error) then Some(Report(f.error.value, f.tfCode)) else None
  }

  /** Saved code never mentions the deprecated plan resource. */
  ghost predicate SafePost(s: Steps) {
    forall raw :: s.post(raw).Ok? ==> !Contains(s.post(raw).value, DeprecatedPlan)
  }

  lemma AgentStepsSafe(o: Oracles)
    ensures SafePost(AgentSteps(o))
  {
    forall raw | AgentSteps(o).post(raw).Ok?
      ensures !Contains(AgentSteps(o).post(raw).value, DeprecatedPlan)
    {
      assert AgentSteps(o).post(raw) == PostProcess(raw);
    }
  }

  /** The loop ends within `MaxRetries` fix attempts and only makes one after a truthy error;
      it exits normally only once the error is falsy or the budget is spent, and then the last
      error is the verdict of the CLI on the last code, from the run with the same number. */
  lemma {:induction false} FixLoopFacts(s: Steps, p: Prompts, retries: nat,
                                        error: Option<string>, tfCode: string)
    requires retries <= MaxRetries
    ensures var f := FixLoop(s, p, retries, error, tfCode);
      retries <= f.retries <= MaxRetries
      && (f.retries > retries ==> Truthy(error))
      && (f.Crashed? ==> f.retries > retries && f.saved.Some?)
      && (f.Finished? ==> !Truthy(f.error) || f.retries == MaxRetries)
      && (f.Finished? && f.retries == retries ==> f.error == error && f.tfCode == tfCode)
      && (f.Finished? && f.retries > retries ==> f.error == s.plan(f.retries, f.tfCode))
    decreases MaxRetries - retries
  {
    if Truthy(error) && retries < MaxRetries {
      var n := retries + 1;
      var raw := s.generate(n, p.fixSystem, p.fixFormat(error.value, tfCode));
      if s.post(raw).Ok? {
        var fixed := s.post(raw).value;
        FixLoopFacts(s, p, n, s.plan(n, fixed), fixed);
      }
    }
  }

  /** Whatever the loop has saved, or ends with, went through the post-processing step, so it
      never mentions the deprecated plan resource. */
  lemma {:induction false} FixLoopSafe(s: Steps, p: Prompts, retries: nat,
                                       error: Option<string>, tfCode: string)
    requires retries <= MaxRetries && SafePost(s) && !Contains(tfCode, DeprecatedPlan)
    ensures var f := FixLoop(s, p, retries, error, tfCode);
      (f.Finished? ==> !Contains(f.tfCode, DeprecatedPlan))
      && (f.Crashed? && f.saved.Some? ==> !Contains(f.saved.value, DeprecatedPlan))
    decreases MaxRetries - retries
  {
    if Truthy(error) && retries < MaxRetries {
      var n := retries + 1;
      var raw := s.generate(n, p.fixSystem, p.fixFormat(error.value, tfCode));
      if s.post(raw).Ok? {
        var fixed := s.post(raw).value;
        FixLoopSafe(s, p, n, s.plan(n, fixed), fixed);
      }
    }
  }

  /** The whole run: a crash on the first generation saves nothing; otherwise the counter ends
      between 0 and `MaxRetries`, a normal end has a falsy error or a spent budget, the last
      error is the verdict on the last code, and the report is written exactly when the final
      error is truthy. */
  lemma PipelineFacts(s: Steps, p: Prompts)
    ensures var f := Pipeline(s, p);
      f.retries <= MaxRetries
      && (f == Crashed(0, None) <==> s.post(s.generate(0, p.system, p.user)).Err?)
      && (f.Crashed? && f.retries > 0 ==> f.saved.Some?)
      && (f.Finished? ==> !Truthy(f.error) || f.retries == MaxRetries)
      && (f.Finished? ==> f.error == s.plan(f.retries, f.tfCode))
      && (FinalReport(f).Some? <==> f.Finished? && Truthy(f.error))
  {
    var first := s.post(s.generate(0, p.system, p.user));
    if first.Ok? {
      FixLoopFacts(s, p, 0, s.plan(0, first.value), first.value);
    }
  }

  /** With the post-processing of this script, no saved code mentions the deprecated plan. */
  lemma PipelineSafe(o: Oracles, p: Prompts)
    ensures var f := Pipeline(AgentSteps(o), p);
      (f.Finished? ==> !Contains(f.tfCode, DeprecatedPlan))
      && (f.Crashed? && f.saved.Some? ==> !Contains(f.saved.value, DeprecatedPlan))
  {
    var s := AgentSteps(o);
    AgentStepsSafe(o);
    var first := s.post(s.generate(0, p.system, p.user));
    if first.Ok? {
      FixLoopSafe(s, p, 0, s.plan(0, first.value), first.value);
    }
  }

  /** No completion makes the post-processing raise. */
  ghost predicate NeverRaises(s: Steps) {
    forall n, sys, user :: s.post(s.generate(n, sys, user)).Ok?
  }

  /** For this script that means `clean_code` accepts every completion. */
  lemma AgentNeverRaises(o: Oracles)
    requires forall n, sys, user :: CleanCode(o.complete(n, sys, user)).Ok?
    ensures NeverRaises(AgentSteps(o))
  {
    forall n, sys, user ensures AgentSteps(o).post(AgentSteps(o).generate(n, sys, user)).Ok? {
      assert CleanCode(o.complete(n, sys, user)).Ok?;
    }
  }

  lemma {:induction false} FixLoopFinishes(s: Steps, p: Prompts, retries: nat,
                                           error: Option<string>, tfCode: string)
    requires retries <= MaxRetries && NeverRaises(s)
    ensures FixLoop(s, p, retries, error, tfCode).Finished?
    decreases MaxRetries - retries
  {
    if Truthy(error) && retries < MaxRetries {
      var n := retries + 1;
      var raw := s.generate(n, p.fixSystem, p.fixFormat(error.value, tfCode));
      assert s.post(raw).Ok?;
      var fixed := s.post(raw).value;
      FixLoopFinishes(s, p, n, s.plan(n, fixed), fixed);
    }
  }

  /** When the post-processing never raises, the run always reaches the loop's normal exit. */
  lemma PipelineFinishes(s: Steps, p: Prompts)
    requires NeverRaises(s)
    ensures Pipeline(s, p).Finished?
  {
    var first := s.post(s.generate(0, p.system, p.user));
    assert first.Ok?;
    FixLoopFinishes(s, p, 0, s.plan(0, first.value), first.value);
  }

  /** A CLI that fails on the first two runs and succeeds on the third: the loop ends with two
      fix attempts, a falsy error and no report. */
  lemma FailTwiceThenSucceed(s: Steps, p: Prompts)
    requires NeverRaises(s)
    requires forall code :: Truthy(s.plan(0, code))
    requires forall code :: Truthy(s.plan(1, code))
    requires forall code :: !Truthy(s.plan(2, code))
    ensures var f := Pipeline(s, p);
      f.Finished? && f.retries == 2 && !Truthy(f.error) && FinalReport(f) == None
  {
    var c0 := s.post(s.generate(0, p.system, p.user)).value;
    var e0 := s.plan(0, c0);
    var c1 := s.post(s.generate(1, p.fixSystem, p.fixFormat(e0.value, c0))).value;
    var e1 := s.plan(1, c1);
    var c2 := s.post(s.generate(2, p.fixSystem, p.fixFormat(e1.value, c1))).value;
    var e2 := s.plan(2, c2);
    assert FixLoop(s, p, 2, e2, c2) == Finished(2, e2, c2);
    assert FixLoop(s, p, 1, e1, c1) == FixLoop(s, p, 2, e2, c2);
    assert FixLoop(s, p, 0, e0, c0) == FixLoop(s, p, 1, e1, c1);
  }

  /** A CLI that always fails: the loop spends all `MaxRetries` attempts and the report holds
      the exact last error and the exact last code. */
  lemma AlwaysFail(s: Steps, p: Prompts)
    requires NeverRaises(s)
    requires forall n, code :: Truthy(s.plan(n, code))
    ensures var f := Pipeline(s, p);
      f.Finished? && f.retries == MaxRetries && f.error == s.plan(MaxRetries, f.tfCode)
      && FinalReport(f) == Some(Report(f.error.value, f.tfCode))
  {
    PipelineFinishes(s, p);
    PipelineFacts(s, p);
    var f := Pipeline(s, p);
    assert Truthy(s.plan(f.retries, f.tfCode));
  }

  // ---------- the diagnostic report ----------

  const ReportHead := "Terraform failed after retries.\n\n" + "Last error:\n"
  const ReportMiddle := "\n\n" + "Last generated Terraform code:\n"

  /** The report text: a header, the error, a heading for the code, and the code. */
  function Report(error: string, tfCode: string): string {
    ReportHead + error + ReportMiddle + tfCode
  }

  /** The report is the header, the exact error, the code heading and the exact code, in that
      order. */
  lemma ReportLayout(error: string, tfCode: string)
    ensures var r := Report(error, tfCode);
      |r| == |ReportHead| + |error| + |ReportMiddle| + |tfCode|
      && r[..|ReportHead|] == ReportHead
      && r[|ReportHead|..|ReportHead| + |error|] == error
      && r[|ReportHead| + |error|..|r| - |tfCode|] == ReportMiddle
      && r[|r| - |tfCode|..] == tfCode
  {
    var r := Report(error, tfCode);
    var h := |ReportHead|;
    var m := |ReportHead| + |error|;
    var t := |r| - |tfCode|;
    assert r == ((ReportHead + error) + ReportMiddle) + tfCode;
    assert r[..t] == (ReportHead + error) + ReportMiddle;
    assert r[..m] == ReportHead + error;
  }

  /** The `modules/` directory: `main.tf` and the diagnostic report (`None` when absent). */
  class Workspace {
    var mainTf: string
    var report: Option<string>

    constructor(mainTf0: string, report0: Option<string>)
      ensures mainTf == mainTf0 && report == report0
    {
      mainTf := mainTf0;
      report := report0;
    }

    /** `save_file("modules/main.tf", content)`. */
    method SaveMainTf(content: string)
      modifies this
      ensures mainTf == content && report == old(report)
    {
      mainTf := content;
    }

    /** Opening the report for writing empties it; five writes follow. */
    method WriteReport(error: string, tfCode: string)
      modifies this
      ensures report == Some(Report(error, tfCode)) && mainTf == old(mainTf)
    {
      var text := "";
      text := text + "Terraform failed after retries.\n\n";
      text := text + "Last error:\n";
      assert text == ReportHead;
      text := text + (error + "\n\n");
      text := text + "Last generated Terraform code:\n";
      assert text == ReportHead + error + ReportMiddle;
      text := text + tfCode;
      report := Some(text);
    }

    /** The first generation: clean, enforce, save and plan. Nothing is saved when
        `clean_code` raises. */
    method Start(o: Oracles, ghost s: Steps, p: Prompts)
      returns (tfCode: Option<string>, error: Option<string>)
      requires StepsOf(o, s)
      modifies this
      ensures var first := s.post(s.generate(0, p.system, p.user));
        (first.Err? ==> tfCode == None && mainTf == old(mainTf))
        && (first.Ok? ==> tfCode == Some(first.value) && mainTf == first.value
                          && error == s.plan(0, first.value))
      ensures report == old(report)
    {
      var raw := o.complete(0, p.system, p.user);
      var cleaned := CleanCode(raw);
      PostStep(o, s, raw, cleaned);
      if cleaned.Err? {
        return None, None;
      }
      var code := EnforceBestPractices(cleaned.value);
      SaveMainTf(code);
      error := RunTerraform(RunOf(o, 0, mainTf));
      PlanStep(o, s, 0, code, error);
      tfCode := Some(code);
    }

    /** Fix attempt number `n` after `error` on `tfCode`: ask for a fix with the stricter system
        prompt, clean, enforce, save and plan again. Nothing is saved when `clean_code`
        raises. */
    method Retry(o: Oracles, ghost s: Steps, p: Prompts, n: nat, error: string, tfCode: string)
      returns (fixed: Option<string>, newError: Option<string>)
      requires StepsOf(o, s)
      modifies this
      ensures var r := s.post(s.generate(n, p.fixSystem, p.fixFormat(error, tfCode)));
        (r.Err? ==> fixed == None && mainTf == old(mainTf))
        && (r.Ok? ==> fixed == Some(r.value) && mainTf == r.value
                      && newError == s.plan(n, r.value))
      ensures report == old(report)
    {
      var fixPrompt := p.fixFormat(error, tfCode);
      var fixedRaw := o.complete(n, p.fixSystem, fixPrompt);
      var cleanedFix := CleanCode(fixedRaw);
      PostStep(o, s, fixedRaw, cleanedFix);
      if cleanedFix.Err? {
        return None, None;
      }
      var fixedCode := EnforceBestPractices(cleanedFix.value);
      SaveMainTf(fixedCode);
      newError := RunTerraform(RunOf(o, n, mainTf));
      PlanStep(o, s, n, fixedCode, newError);
      fixed := Some(fixedCode);
    }

    /** The retry loop, from the counter, error and code it is entered with: fix attempts
        while the error is truthy and the budget lasts. */
    method RetryLoop(o: Oracles, ghost s: Steps, p: Prompts, retries0: nat,
                     error0: Option<string>, tfCode0: string) returns (f: Outcome)
      requires StepsOf(o, s) && retries0 <= MaxRetries && mainTf == tfCode0
      modifies this
      ensures f == FixLoop(s, p, retries0, error0, tfCode0)
      ensures report == old(report)
      ensures match f
        case Finished(_, _, code) => mainTf == code
        case Crashed(_, saved) => saved == Some(mainTf)
    {
      var retries, error, tfCode := retries0, error0, tfCode0;
      while Truthy(error) && retries < MaxRetries
        invariant retries <= MaxRetries
        invariant mainTf == tfCode && report == old(report)
        invariant FixLoop(s, p, retries, error, tfCode) == FixLoop(s, p, retries0, error0, tfCode0)
        decreases MaxRetries - retries
      {
        retries := retries + 1;
        var fixed, newError := Retry(o, s, p, retries, error.value, tfCode);
        if fixed.None? {
          FixLoopCrashes(s, p, retries - 1, error, tfCode);
          return Crashed(retries, Some(tfCode));
        }
        FixLoopGoesOn(s, p, retries - 1, error, tfCode, fixed.value);
        tfCode := fixed.value;
        error := newError;
      }
      f := Finished(retries, error, tfCode);
    }

    /** The `__main__` block: the first generation; then up to `MaxRetries` fix attempts
        while the error is truthy; then the report if the error still is. `main.tf` always
        holds the current code when the CLI runs. */
    method Run(o: Oracles, system: string, user: string, fixFormat: (string, string) -> string)
      returns (f: Outcome)
      modifies this
      ensures f == Pipeline(AgentSteps(o), ScriptPrompts(system, user, fixFormat))
      ensures report == if FinalReport(f).Some? then FinalReport(f) else old(report)
      ensures mainTf == match f
        case Finished(_, _, code) => code
        case Crashed(_, saved) => if saved.Some? then saved.value else old(mainTf)
    {
      var p := ScriptPrompts(system, user, fixFormat);
      ghost var s := AgentSteps(o);
      AgentStepsOf(o);
      var first, error := Start(o, s, p);
      if first.None? {
        return Crashed(0, None);
      }
      f := RetryLoop(o, s, p, 0, error, first.value);
      if f.Finished? && Truthy(f.error) {
        WriteReport(f.error.value, f.tfCode);
      }
    }
  }

  /** `s` is what the script does: its completions are the service's, its post-processing is
      `clean_code` then `enforce_best_practices`, and its runner is `run_terraform`. */
  ghost predicate StepsOf(o: Oracles, s: Steps) {
    s.generate == o.complete
    && (forall raw {:trigger PostProcess(raw)} :: s.post(raw) == PostProcess(raw))
    && (forall n: nat, code {:trigger RunPlan(o, n, code)} :: s.plan(n, code) == RunPlan(o, n, code))
  }

  lemma AgentStepsOf(o: Oracles)
    ensures StepsOf(o, AgentSteps(o))
  {
  }

  /** One post-processing step of the script, as the loop sees it. */
  lemma PostStep(o: Oracles, s: Steps, raw: string, cleaned: Result<string>)
    requires StepsOf(o, s) && cleaned == CleanCode(raw)
    ensures cleaned.Err? ==> s.post(raw).Err?
    ensures cleaned.Ok? ==> s.post(raw) == Ok(EnforceBestPractices(cleaned.value))
  {
    assert s.post(raw) == PostProcess(raw);
  }

  /** One call of `run_terraform`, as the loop sees it. */
  lemma PlanStep(o: Oracles, s: Steps, n: nat, code: string, error: Option<string>)
    requires StepsOf(o, s) && error == PlanError(RunOf(o, n, code))
    ensures error == s.plan(n, code)
  {
    assert s.plan(n, code) == RunPlan(o, n, code);
  }

  /** A fix attempt whose completion makes the post-processing raise ends the run. */
  lemma FixLoopCrashes(s: Steps, p: Prompts, retries: nat, error: Option<string>, tfCode: string)
    requires Truthy(error) && retries < MaxRetries
    requires s.post(s.generate(retries + 1, p.fixSystem, p.fixFormat(error.value, tfCode))).Err?
    ensures FixLoop(s, p, retries, error, tfCode) == Crashed(retries + 1, Some(tfCode))
  {
  }

  /** A fix attempt that yields `fixed` leaves the loop in the state after that attempt. */
  lemma FixLoopGoesOn(s: Steps, p: Prompts, retries: nat, error: Option<string>, tfCode: string,
                      fixed: string)
    requires Truthy(error) && retries < MaxRetries
    requires s.post(s.generate(retries + 1, p.fixSystem, p.fixFormat(error.value, tfCode)))
             == Ok(fixed)
    ensures FixLoop(s, p, retries, error, tfCode)
            == FixLoop(s, p, retries + 1, s.plan(retries + 1, fixed), fixed)
  {
  }
}
