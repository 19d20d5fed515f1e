/** The navigation bar's link labels: each section id with its first
    character upper-cased. Section ids are lower-case ASCII, so upper-casing
    is the ASCII mapping of 'a'..'z' to 'A'..'Z'. */
module NavLabel {
  import ScrollSpy

  predicate IsLower(ch: char)
  {
    'a' <= ch <= 'z'
  }

  predicate IsUpper(ch: char)
  {
    'A' <= ch <= 'Z'
  }

  /** Upper-casing of one character: a lower-case letter becomes its
      capital, any other character is left as it is. */
  function ToUpper(ch: char): (r: char)
    ensures !IsLower(r)
    ensures IsLower(ch) ==> IsUpper(r) && ToLower(r) == ch
    ensures !IsLower(ch) ==> r == ch
  {
    if IsLower(ch) then (ch as int - 32) as char else ch
  }

  /** Lower-casing of one character, the inverse of `ToUpper` on letters. */
  function ToLower(ch: char): char
  {
    if IsUpper(ch) then (ch as int + 32) as char else ch
  }

  /** The label shown for a section id: its first character upper-cased and
      the rest unchanged; the empty id gives the empty label. */
  function Capitalize(s: string): (r: string)
    ensures |r| == |s|
    ensures |s| > 0 ==> r[0] == ToUpper(s[0]) && r[1..] == s[1..]
  {
    if s == [] then [] else [ToUpper(s[0])] + s[1..]
  }

  /** Upper-casing the first character twice is the same as once. */
  lemma CapitalizeIdempotent(s: string)
    ensures Capitalize(Capitalize(s)) == Capitalize(s)
  {
  }

  /** Two ids that start with a lower-case letter get the same label only
      if they are the same id: the label determines the section. */
  lemma CapitalizeInjective(s: string, t: string)
    requires |s| > 0 && IsLower(s[0])
    requires |t| > 0 && IsLower(t[0])
    requires Capitalize(s) == Capitalize(t)
    ensures s == t
  {
    var cs, ct := Capitalize(s), Capitalize(t);
    assert ToLower(cs[0]) == s[0] && ToLower(ct[0]) == t[0];
    assert s == [s[0]] + cs[1..] && t == [t[0]] + ct[1..];
  }

  /** An id whose first character is a lower-case letter. */
  predicate StartsLower(s: string)
  {
    |s| > 0 && IsLower(s[0])
  }

  /** The labels of the navigation bar, in section order. */
  function Labels(ids: seq<string>): (r: seq<string>)
    ensures |r| == |ids|
    ensures forall i :: 0 <= i < |ids| ==> r[i] == Capitalize(ids[i])
  {
    seq(|ids|, i requires 0 <= i < |ids| => Capitalize(ids[i]))
  }

  /** Ids that all start with a lower-case letter and are pairwise distinct
      get pairwise distinct labels. */
  lemma LabelsDistinct(ids: seq<string>)
    requires forall i :: 0 <= i < |ids| ==> StartsLower(ids[i])
    requires forall i, j :: 0 <= i < j < |ids| ==> ids[i] != ids[j]
    ensures forall i, j :: 0 <= i < j < |ids| ==> Labels(ids)[i] != Labels(ids)[j]
  {
    var ls := Labels(ids);
    forall i, j | 0 <= i < j < |ids| ensures ls[i] != ls[j] {
      if ls[i] == ls[j] {
        CapitalizeInjective(ids[i], ids[j]);
      }
    }
  }

  /** The navigation bar shows these seven labels, in section order. */
  lemma NavLabels()
    ensures Labels(ScrollSpy.Sections) ==
              ["About", "Skills", "Projects", "Experience", "Education", "Certifications", "Contact"]
  {
    var ls := Labels(ScrollSpy.Sections);
    assert ls[0] == "About";
    assert ls[1] == "Skills";
    assert ls[2] == "Projects";
    assert ls[3] == "Experience";
    assert ls[4] == "Education";
    assert ls[5] == "Certifications";
    assert ls[6] == "Contact";
  }

  /** No two links of the navigation bar share a label. */
  lemma NavLabelsDistinct()
    ensures forall i, j :: 0 <= i < j < |ScrollSpy.Sections| ==>
              Labels(ScrollSpy.Sections)[i] != Labels(ScrollSpy.Sections)[j]
  {
    var ids := ScrollSpy.Sections;
    assert forall i :: 0 <= i < |ids| ==> StartsLower(ids[i]);
    assert forall i, j :: 0 <= i < j < |ids| ==> ids[i] != ids[j];
    LabelsDistinct(ids);
  }
}
