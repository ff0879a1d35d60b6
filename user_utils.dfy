/** Initials and the form validators of the user dialog. */
module UserUtils {
  import Seqs
  import opened Text

  // ---------------------------------------------------------------- initials

  /** `s.split(sep)`: the pieces between separators, empty ones included. */
  function Split(s: string, sep: char): (r: seq<string>)
    ensures |r| >= 1
    ensures forall k :: 0 <= k < |r| ==> sep !in r[k]
  {
    if s == [] then [""]
    else
      var rest := Split(s[1..], sep);
      if s[0] == sep then [""] + rest else [[s[0]] + rest[0]] + rest[1..]
  }

  /** `pieces.join(sep)`. */
  function Join(pieces: seq<string>, sep: char): string
  {
    if |pieces| <= 1 then (if pieces == [] then "" else pieces[0])
    else pieces[0] + [sep] + Join(pieces[1..], sep)
  }

  /** Joining the pieces of a split gives the string back. */
  lemma {:induction false} JoinSplit(s: string, sep: char)
    ensures Join(Split(s, sep), sep) == s
  {
    if s != [] {
      JoinSplit(s[1..], sep);
      var rest := Split(s[1..], sep);
      if s[0] == sep {
        assert ([""] + rest)[1..] == rest;
      } else {
        var pieces := [[s[0]] + rest[0]] + rest[1..];
        if |rest| > 1 {
          assert pieces[1..] == rest[1..];
          assert Join(rest, sep) == rest[0] + [sep] + Join(rest[1..], sep);
        }
      }
    }
  }

  /** `pieces.map((n) => n[0]).join('')`: the first character of each piece; an empty
      piece yields `undefined`, which joins as the empty string. */
  function Heads(pieces: seq<string>): string
  {
    if pieces == [] then ""
    else (if pieces[0] == "" then "" else [pieces[0][0]]) + Heads(pieces[1..])
  }

  /** Reference definition: the characters of `s` that start a word, a word being a maximal
      run without spaces; `atStart` says whether the position before `s` counts as a space. */
  function WordStarts(s: string, atStart: bool): string
  {
    if s == [] then ""
    else (if s[0] != ' ' && atStart then [s[0]] else "") + WordStarts(s[1..], s[0] == ' ')
  }

  /** The first characters of the split pieces are exactly the word starts. */
  lemma {:induction false} HeadsOfSplit(s: string)
    ensures Heads(Split(s, ' ')) == WordStarts(s, true)
    ensures Heads(Split(s, ' ')[1..]) == WordStarts(s, false)
  {
    if s != [] {
      HeadsOfSplit(s[1..]);
      var rest := Split(s[1..], ' ');
      if s[0] == ' ' {
        assert ([""] + rest)[1..] == rest;
      } else {
        var pieces := [[s[0]] + rest[0]] + rest[1..];
        assert pieces[1..] == rest[1..];
      }
    }
  }

  /** `getInitials(name)`: the upper-cased first letters of the space-separated words,
      at most two. */
  function Initials(name: string): (r: string)
    ensures |r| <= 2
    ensures var starts := Upper(WordStarts(name, true));
      r == starts[..Seqs.Min(2, |starts|)]
  {
    HeadsOfSplit(name);
    Seqs.Slice(Upper(Heads(Split(name, ' '))), 0, 2)
  }

  // ---------------------------------------------------------------- validators

  /** A run of the class `[^\s@]+` (its non-emptiness is checked by the caller). */
  predicate Plain(s: string) { forall k :: 0 <= k < |s| ==> !IsSpace(s[k]) && s[k] != '@' }

  /** The three plain runs that the email pattern places around an '@' at `i` and a '.' at `j`. */
  predicate EmailParts(email: string, i: int, j: int)
  {
    0 < i && i + 1 < j < |email| - 1 && email[i] == '@' && email[j] == '.'
    && Plain(email[..i]) && Plain(email[i + 1..j]) && Plain(email[j + 1..])
  }

  /** `validateEmail`: `/^[^\s@]+@[^\s@]+\.[^\s@]+$/.test(email)`. The pattern matches
      exactly the addresses of the shape `EmailShape` describes. */
  function ValidateEmail(email: string): (r: bool)
    ensures r <==> EmailShape(email)
  {
    EmailPartsIffShape(email);
    exists i, j | 0 < i < |email| && 0 < j < |email| :: EmailParts(email, i, j)
  }

  /** A '.' with at least one character before it and one after it. */
  predicate HasInnerDot(d: string) { exists j :: 0 < j < |d| - 1 && d[j] == '.' }

  /** The shape the email pattern accepts, stated without the pattern: exactly one '@',
      no white space, a non-empty local part, and an inner '.' in the domain. */
  ghost predicate EmailShape(email: string)
  {
    && multiset(email)['@'] == 1
    && (forall k :: 0 <= k < |email| ==> !IsSpace(email[k]))
    && exists i :: 0 < i < |email| && email[i] == '@' && HasInnerDot(email[i + 1..])
  }

  /** Some split into the pattern's three runs exists exactly when the address has that shape. */
  lemma EmailPartsIffShape(email: string)
    ensures (exists i, j | 0 < i < |email| && 0 < j < |email| :: EmailParts(email, i, j))
      <==> EmailShape(email)
  {
    if exists i, j | 0 < i < |email| && 0 < j < |email| :: EmailParts(email, i, j) {
      var i, j :| EmailParts(email, i, j);
      EmailFromParts(email, i, j);
    }
    if EmailShape(email) {
      var i :| 0 < i < |email| && email[i] == '@' && HasInnerDot(email[i + 1..]);
      EmailToParts(email, i);
    }
  }

  /** The pattern's parts give exactly one '@' and no white space. */
  lemma EmailFromParts(email: string, i: int, j: int)
    requires EmailParts(email, i, j)
    ensures EmailShape(email)
  {
    var a, b, c := email[..i], email[i + 1..j], email[j + 1..];
    assert email == a + ['@'] + b + ['.'] + c;
    assert '@' !in a && '@' !in b && '@' !in c;
    assert multiset(email)['@'] == 1;
    forall k | 0 <= k < |email| ensures !IsSpace(email[k]) {
      if k < i { assert a[k] == email[k]; }
      else if i < k < j { assert b[k - i - 1] == email[k]; }
      else if k > j { assert c[k - j - 1] == email[k]; }
    }
    assert HasInnerDot(email[i + 1..]) by { assert email[i + 1..][j - i - 1] == '.'; }
  }

  /** The shape gives the pattern's parts, split at the one '@' and an inner '.'. */
  lemma EmailToParts(email: string, i: int)
    requires EmailShape(email)
    requires 0 < i < |email| && email[i] == '@' && HasInnerDot(email[i + 1..])
    ensures exists i, j | 0 < i < |email| && 0 < j < |email| :: EmailParts(email, i, j)
  {
    var d := email[i + 1..];
    var j' :| 0 < j' < |d| - 1 && d[j'] == '.';
    var j := i + 1 + j';
    OnlyAt(email, i);
    assert email[j] == '.';
    assert EmailParts(email, i, j);
  }

  /** With a single '@' at `i`, no other position holds one. */
  lemma OnlyAt(email: string, i: int)
    requires 0 <= i < |email| && email[i] == '@' && multiset(email)['@'] == 1
    ensures forall k :: 0 <= k < |email| && k != i ==> email[k] != '@'
  {
    assert email == email[..i] + [email[i]] + email[i + 1..];
    forall k | 0 <= k < |email| && k != i ensures email[k] != '@' {
      if k < i { assert email[k] in email[..i]; } else { assert email[k] in email[i + 1..]; }
    }
  }

  /** `validateName`: something other than white space is left after trimming. */
  function ValidateName(name: string): (ok: bool)
    ensures ok <==> exists k :: 0 <= k < |name| && !IsSpace(name[k])
  {
    |Trim(name)| > 0
  }

  /** `phone` is white space, then a non-empty run of digits from `i` to `j`, then white space. */
  predicate DigitsBetween(phone: string, i: int, j: int)
  {
    0 <= i < j <= |phone| && SpaceBetween(phone, 0, i) && AllDigits(phone[i..j]) && SpaceBetween(phone, j, |phone|)
  }

  /** `validatePhone`: `/^\d+$/.test(phone.trim())`. */
  function ValidatePhone(phone: string): (ok: bool)
    ensures ok <==> exists i, j :: DigitsBetween(phone, i, j)
  {
    var t := Trim(phone);
    var ok := t != [] && AllDigits(t);
    assert ok ==> DigitsBetween(phone, TrimOffset(phone), TrimOffset(phone) + |t|);
    assert (exists i, j :: DigitsBetween(phone, i, j)) ==> ok by {
      if i, j :| DigitsBetween(phone, i, j) {
        assert phone[i..j][0] == phone[i] && phone[i..j][j - i - 1] == phone[j - 1];
        TrimAround(phone, i, j);
      }
    }
    ok
  }

  /** Why a submitted form was refused; each carries the message the source alerts. */
  datatype Problem = NameRequired | BadEmail | BadPhone {
    function Message(): string {
      match this
      case NameRequired => "Name is required"
      case BadEmail => "Please enter a valid email address"
      case BadPhone => "Phone must contain digits only"
    }
  }

  datatype Verdict = Accepted | Rejected(problem: Problem)

  /** `validateUser`: the three checks in order, stopping at (and reporting) the first failure. */
  function ValidateUser(name: string, email: string, phone: string): (v: Verdict)
    ensures v.Accepted? <==> ValidateName(name) && ValidateEmail(email) && ValidatePhone(phone)
    ensures v == Rejected(NameRequired) <==> !ValidateName(name)
    ensures v == Rejected(BadEmail) <==> ValidateName(name) && !ValidateEmail(email)
    ensures v == Rejected(BadPhone) <==>
      ValidateName(name) && ValidateEmail(email) && !ValidatePhone(phone)
  {
    if !ValidateName(name) then Rejected(NameRequired)
    else if !ValidateEmail(email) then Rejected(BadEmail)
    else if !ValidatePhone(phone) then Rejected(BadPhone)
    else Accepted
  }
}
