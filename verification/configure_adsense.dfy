/**
 The command-line helper that turns ads on: it checks the publisher id the user typed
 against `/^ca-pub-\d{16}$/` and rewrites the ad banner's source text, putting the id in
 place of the placeholder and switching `enabled: false` to `enabled: true`.
 */
module ConfigureAdsense {

  import opened Optional
  import opened Text
  import opened Decimal

  const PublisherPrefix := "ca-pub-"
  const PublisherDigits := 16
  const Placeholder := "ca-pub-YOUR_ADSENSE_CLIENT_ID"
  const DisabledMarker := "enabled: false"
  const EnabledMarker := "enabled: true"

  // ---------------------------------------------------------------------------------------
  // The id pattern

  /** Match the literal `lit` at the start of `s`; the rest of `s` on success. */
  function MatchLiteral(s: string, lit: string): (r: Option<string>)
    ensures r.Some? <==> lit <= s
    ensures r.Some? ==> s == lit + r.value
  {
    if lit <= s then
      assert s == lit + s[|lit|..];
      Some(s[|lit|..])
    else None
  }

  /** Match `\d{n}` at the start of `s`: exactly `n` ASCII digits; the rest on success. */
  function MatchDigits(s: string, n: nat): Option<string> {
    if n == 0 then Some(s)
    else if s != [] && IsDigit(s[0]) then MatchDigits(s[1..], n - 1)
    else None
  }

  /** `\d{n}` consumes the first `n` characters exactly when they are all digits. */
  lemma {:induction false} MatchDigitsSpec(s: string, n: nat)
    ensures MatchDigits(s, n) == if n <= |s| && AllDigits(s[..n]) then Some(s[n..]) else None
  {
    if n > 0 && s != [] {
      MatchDigitsSpec(s[1..], n - 1);
      if IsDigit(s[0]) {
        assert n - 1 <= |s[1..]| ==> s[1..][..n - 1] == s[1..n];
        assert n <= |s| ==> (AllDigits(s[..n]) <==> AllDigits(s[1..n]));
        if n <= |s| {
          assert s[1..][n - 1..] == s[n..];
        }
      } else {
        assert n <= |s| ==> !IsDigit(s[..n][0]);
      }
    }
  }

  /** `validatePublisherId(id)`: `/^ca-pub-\d{16}$/.test(id)`, the prefix, sixteen digits,
      then the end of the text. */
  function ValidatePublisherId(id: string): bool {
    match MatchLiteral(id, PublisherPrefix)
    case None => false
    case Some(rest) =>
      match MatchDigits(rest, PublisherDigits)
      case None => false
      case Some(tail) => tail == []
  }

  /** The id is valid exactly when it is the prefix followed by sixteen digits and nothing
      else; in particular it is 23 characters long. */
  lemma ValidatePublisherIdShape(id: string)
    ensures ValidatePublisherId(id) <==>
              |id| == 23 && id[..7] == PublisherPrefix && AllDigits(id[7..])
  {
    if PublisherPrefix <= id {
      var rest := id[7..];
      assert MatchLiteral(id, PublisherPrefix) == Some(rest);
      MatchDigitsSpec(rest, PublisherDigits);
      if |rest| == 16 {
        assert rest[..16] == rest;
      }
    }
  }

  lemma ValidExample()
    ensures ValidatePublisherId("ca-pub-1234567890123456")
  {
    var id := "ca-pub-1234567890123456";
    assert id[..7] == PublisherPrefix;
    assert AllDigits(id[7..]);
    ValidatePublisherIdShape(id);
  }

  /** Any character after the sixteen digits makes the id invalid. */
  lemma ValidRejectsExtra(id: string, c: char)
    requires ValidatePublisherId(id)
    ensures !ValidatePublisherId(id + [c])
  {
    ValidatePublisherIdShape(id);
    ValidatePublisherIdShape(id + [c]);
  }

  /** A valid id has neither an `e` nor a `$`: it cannot start the disabled marker and the
      replacement text has no `$` pattern to expand. */
  lemma ValidIdCharacters(id: string)
    requires ValidatePublisherId(id)
    ensures 'e' !in id && '$' !in id
    ensures id[0] == 'c' && IsDigit(id[|id| - 1])
  {
    ValidatePublisherIdShape(id);
    assert forall k :: 0 <= k < 7 ==> id[k] == PublisherPrefix[k];
    assert forall k :: 7 <= k < |id| ==> id[k] == id[7..][k - 7];
  }

  // ---------------------------------------------------------------------------------------
  // Rewriting the banner's source text

  /** Where `pat` occurs nowhere in `s`. */
  predicate Absent(s: string, pat: string) {
    forall j :: 0 <= j <= |s| ==> !OccursAt(s, pat, j)
  }

  /** `pat` cannot occur across `m` when `m` has no copy of `pat[0]` and neither its first
      nor its last character is in `pat`, so it occurs in `a + m + b` only inside `a` or
      `b`. */
  lemma AbsentAcross(a: string, m: string, b: string, pat: string)
    requires pat != [] && m != []
    requires Absent(a, pat) && Absent(b, pat)
    requires pat[0] !in m && m[0] !in pat && m[|m| - 1] !in pat
    ensures Absent(a + m + b, pat)
  {
    var s := a + m + b;
    var n := |pat|;
    forall j | 0 <= j <= |s| ensures !OccursAt(s, pat, j) {
      if j + n <= |s| {
        var w := s[j..j + n];
        if j + n <= |a| {
          assert w == a[j..j + n] && !OccursAt(a, pat, j);
        } else if j >= |a| + |m| {
          var j' := j - |a| - |m|;
          assert w == b[j'..j' + n] && !OccursAt(b, pat, j');
        } else if j < |a| {
          assert w[|a| - j] == m[0] != pat[|a| - j];
        } else if j + n <= |a| + |m| {
          assert w[0] == m[j - |a|] != pat[0];
        } else {
          var k := |a| + |m| - 1 - j;
          assert w[k] == m[|m| - 1] != pat[k];
        }
      }
    }
  }

  /** The text with `pat`'s first occurrence at `i` does not hold `pat` before `i`. */
  predicate FirstAt(s: string, pat: string, i: nat) {
    OccursAt(s, pat, i) && forall j: nat :: j < i ==> !OccursAt(s, pat, j)
  }

  /** The outcome of `updateAdBannerConfig`: the text written back, or a failure of the
      read or the write (the function then returns `false`). */
  datatype Update = Written(content: string) | UpdateFailed

  /** `updateAdBannerConfig(id)` on the banner text read from disk (`None` when the read
      throws); `writeFails` says whether the write throws. */
  function UpdateAdBannerConfig(file: Option<string>, id: string, writeFails: bool): (u: Update)
    ensures u.UpdateFailed? <==> file.None? || writeFails
  {
    match file
    case None => UpdateFailed
    case Some(content) =>
      var withId := ReplaceFirst(content, Placeholder, id);
      var enabled := ReplaceFirst(withId, DisabledMarker, EnabledMarker);
      if writeFails then UpdateFailed else Written(enabled)
  }

  /** A text with neither the placeholder nor the disabled marker is written back as it
      was. */
  lemma UpdateWithoutMarkers(content: string, id: string)
    requires Absent(content, Placeholder) && Absent(content, DisabledMarker)
    ensures UpdateAdBannerConfig(Some(content), id, false) == Written(content)
  {
  }

  /** With the disabled marker absent, a valid id replaces the placeholder's first occurrence
      and nothing else changes; the result still has no disabled marker. */
  lemma UpdatePutsIdInPlace(content: string, id: string, i: nat)
    requires ValidatePublisherId(id)
    requires FirstAt(content, Placeholder, i) && Absent(content, DisabledMarker)
    ensures UpdateAdBannerConfig(Some(content), id, false)
            == Written(content[..i] + id + content[i + |Placeholder|..])
    ensures Absent(content[..i] + id + content[i + |Placeholder|..], DisabledMarker)
  {
    var a, b := content[..i], content[i + |Placeholder|..];
    var n := |DisabledMarker|;
    forall j | 0 <= j <= |a| ensures !OccursAt(a, DisabledMarker, j) {
      if j + n <= |a| {
        assert a[j..j + n] == content[j..j + n] && !OccursAt(content, DisabledMarker, j);
      }
    }
    forall j | 0 <= j <= |b| ensures !OccursAt(b, DisabledMarker, j) {
      if j + n <= |b| {
        var j' := i + |Placeholder| + j;
        assert b[j..j + n] == content[j'..j' + n] && !OccursAt(content, DisabledMarker, j');
      }
    }
    ValidIdCharacters(id);
    assert DisabledMarker[0] == 'e';
    assert 'c' !in DisabledMarker;
    assert forall k :: 0 <= k < |DisabledMarker| ==> !IsDigit(DisabledMarker[k]);
    AbsentAcross(a, id, b, DisabledMarker);
  }

  /** Without the placeholder, only the first disabled marker is switched on. */
  lemma UpdateEnablesFirstMarker(content: string, id: string, j: nat)
    requires Absent(content, Placeholder) && FirstAt(content, DisabledMarker, j)
    ensures UpdateAdBannerConfig(Some(content), id, false)
            == Written(content[..j] + EnabledMarker + content[j + |DisabledMarker|..])
  {
  }

  // ---------------------------------------------------------------------------------------
  // The script

  /** How `main` ends. */
  datatype Outcome = NoIdGiven | InvalidId | Configured(content: string) | ConfigFailed

  /** The script's `main` on the line the user typed: an empty line exits first, an
      invalid id exits before the banner is touched, otherwise the banner is updated. */
  function RunScript(input: string, file: Option<string>, writeFails: bool): (o: Outcome)
    ensures input == [] <==> o == NoIdGiven
    ensures o == InvalidId <==> input != [] && !ValidatePublisherId(input)
    ensures o.Configured? ==> ValidatePublisherId(input) && file.Some? && !writeFails
    ensures ValidatePublisherId(input) && file.Some? && !writeFails ==> o.Configured?
  {
    if input == [] then
      NoIdGiven
    else if !ValidatePublisherId(input) then
      InvalidId
    else
      match UpdateAdBannerConfig(file, input, writeFails)
      case Written(content) => Configured(content)
      case UpdateFailed => ConfigFailed
  }

  /** The empty line is not a valid id, so the first guard never hides a valid one. */
  lemma EmptyIsInvalid()
    ensures !ValidatePublisherId([])
  {
    ValidatePublisherIdShape([]);
  }
}
