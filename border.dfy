/**
  Document approval of a border check (border/models.py): a PDF is approved
  when its text contains a fixed phrase. The storage path and the page texts
  extracted by PyMuPDF are inputs; a step that raises is an absent value.
 */
module Border {
  import opened Wrappers

  /** The phrase an authorisation document must contain. */
  const SpecificPattern: string := "AUTHORIZED TO PASS"

  /** Python's `str.lower` on one ASCII character. */
  function ToLower(c: char): char {
    if 'A' <= c <= 'Z' then (c as int + 32) as char else c
  }

  function Lower(s: string): (r: string)
    ensures |r| == |s|
  {
    seq(|s|, i requires 0 <= i < |s| => ToLower(s[i]))
  }

  predicate EndsWith(s: string, suffix: string) {
    |suffix| <= |s| && s[|s| - |suffix|..] == suffix
  }

  /** `pattern` occurs in `text` starting at index `k`. */
  predicate OccursAt(text: string, pattern: string, k: int) {
    0 <= k <= |text| - |pattern| && text[k..k + |pattern|] == pattern
  }

  /** Python's `pattern in text`. */
  predicate Contains(text: string, pattern: string) {
    exists k | 0 <= k <= |text| - |pattern| :: OccursAt(text, pattern, k)
  }

  /** Python's `'\n'.join(pages)`. */
  function JoinLines(pages: seq<string>): string {
    if |pages| == 0 then ""
    else if |pages| == 1 then pages[0]
    else pages[0] + "\n" + JoinLines(pages[1..])
  }

  /** An occurrence of `pattern` at `k` covers position `m` of `text` with its own character `m - k`. */
  lemma OccurrenceCovers(text: string, pattern: string, k: int, m: int)
    requires OccursAt(text, pattern, k) && 0 <= m < |text|
    ensures k <= m < k + |pattern| ==> pattern[m - k] == text[m]
  {
  }

  /** A pattern without a newline occurs in two texts joined by a newline exactly when it occurs in one of them. */
  lemma ContainsAcrossNewline(a: string, b: string, p: string)
    requires '\n' !in p
    ensures Contains(a + "\n" + b, p) <==> Contains(a, p) || Contains(b, p)
  {
    var t := a + "\n" + b;
    if Contains(a, p) {
      var k :| 0 <= k <= |a| - |p| && OccursAt(a, p, k);
      assert 0 <= k <= |a| - |p| && a[k..k + |p|] == p;
      assert t[k..k + |p|] == a[k..k + |p|];
      assert OccursAt(t, p, k);
    }
    if Contains(b, p) {
      var k :| 0 <= k <= |b| - |p| && OccursAt(b, p, k);
      assert 0 <= k <= |b| - |p| && b[k..k + |p|] == p;
      assert t[|a| + 1 + k..|a| + 1 + k + |p|] == b[k..k + |p|];
      assert OccursAt(t, p, |a| + 1 + k);
    }
    if Contains(t, p) {
      var k :| 0 <= k <= |t| - |p| && OccursAt(t, p, k);
      assert 0 <= k <= |t| - |p| && t[k..k + |p|] == p;
      OccurrenceCovers(t, p, k, |a|);
      if k + |p| <= |a| {
        assert t[..|a|] == a;
        assert a[k..k + |p|] == t[..|a|][k..k + |p|] == t[k..k + |p|];
        assert OccursAt(a, p, k);
      } else {
        var j := k - |a| - 1;
        assert t[|a| + 1..] == b;
        assert b[j..j + |p|] == t[|a| + 1..][j..j + |p|] == t[k..k + |p|];
        assert OccursAt(b, p, j);
      }
    }
  }

  /** The phrase is in the joined document text exactly when it is on one page. */
  lemma {:induction false} JoinContains(pages: seq<string>, p: string)
    requires '\n' !in p && |p| > 0
    ensures Contains(JoinLines(pages), p) <==> exists i :: 0 <= i < |pages| && Contains(pages[i], p)
  {
    if |pages| == 1 {
      assert JoinLines(pages) == pages[0];
    } else if |pages| > 1 {
      var rest := pages[1..];
      JoinContains(rest, p);
      ContainsAcrossNewline(pages[0], JoinLines(rest), p);
      assert forall i :: 1 <= i < |pages| ==> pages[i] == rest[i - 1];
      if exists i :: 0 <= i < |pages| && Contains(pages[i], p) {
        var i :| 0 <= i < |pages| && Contains(pages[i], p);
        if i > 0 {
          assert Contains(rest[i - 1], p);
        }
      }
    }
  }

  /**
    An uploaded authorisation file: its name, the storage path for it
    (absent when `default_storage.path` raises), and the text of each page
    (absent when opening or reading the PDF raises).
   */
  datatype Upload = Upload(name: string, path: Option<string>, pages: Option<seq<string>>)

  /** `check_authorization_file` returns True. */
  predicate Approves(file: Upload) {
    && file.path.Some?
    && EndsWith(Lower(file.path.value), ".pdf")
    && file.pages.Some?
    && Contains(JoinLines(file.pages.value), SpecificPattern)
  }

  /** `check_authorization_file`: collects the page texts, joins them and looks for the phrase. */
  method CheckAuthorizationFile(file: Upload) returns (approved: bool)
    ensures approved == Approves(file)
    ensures approved <==>
      && file.path.Some? && EndsWith(Lower(file.path.value), ".pdf")
      && file.pages.Some?
      && exists i :: 0 <= i < |file.pages.value| && Contains(file.pages.value[i], SpecificPattern)
    ensures file.path.None? || file.pages.None? ==> !approved
  {
    JoinContains(if file.pages.Some? then file.pages.value else [], SpecificPattern);
    if file.path.None? {
      return false;
    }
    if !EndsWith(Lower(file.path.value), ".pdf") {
      return false;
    }
    if file.pages.None? {
      return false;
    }
    var pages := file.pages.value;
    var fullText: seq<string> := [];
    for pageNum := 0 to |pages|
      invariant fullText == pages[..pageNum]
    {
      fullText := fullText + [pages[pageNum]];
    }
    assert fullText == pages;
    var documentText := JoinLines(fullText);
    approved := Contains(documentText, SpecificPattern);
  }

  /** A file field is truthy when a file with a non-empty name is attached. */
  predicate HasFile(f: Option<Upload>) {
    f.Some? && f.value.name != ""
  }

  /** A BorderCheck row: the vehicle it checks, the uploaded document and the approval flag. */
  class BorderCheck {
    var vehicle: nat
    var authorizationFile: Option<Upload>
    var isApproved: bool

    /** A new row: `is_approved` defaults to False. */
    constructor (vehicle: nat, authorizationFile: Option<Upload>)
      ensures this.vehicle == vehicle && this.authorizationFile == authorizationFile
      ensures !isApproved
    {
      this.vehicle := vehicle;
      this.authorizationFile := authorizationFile;
      isApproved := false;
    }

    /** `save`: with a file attached the flag is recomputed from it; otherwise it is left as it was. */
    method Save()
      modifies this`isApproved
      ensures HasFile(authorizationFile) ==> isApproved == Approves(authorizationFile.value)
      ensures !HasFile(authorizationFile) ==> isApproved == old(isApproved)
    {
      if HasFile(authorizationFile) {
        isApproved := CheckAuthorizationFile(authorizationFile.value);
      }
    }
  }
}
