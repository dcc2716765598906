/** The browser page (script.js): the list of images loaded from a folder, the index of the one
    on screen, and the marks given so far, driven by the j/k/h/l keys. The page's state is the
    `Annotator` class; what each handler does to it is stated by a function on a `View` of that
    state, and the properties of the page are lemmas about those functions. */
module Script {
  import opened Wrappers
  import opened Text

  const Good := "Good"
  const Bad := "Bad"

  /** One mark: the quality chosen and the ISO time it was given at. */
  datatype Annotation = Annotation(quality: string, timestamp: string)

  /** The page's three globals: the image paths, the index on screen, the marks by path. */
  datatype View = View(images: seq<string>, index: int, annotations: map<string, Annotation>)

  /** The index names an image, or is 0 while there are none. */
  predicate InBounds(v: View) {
    0 <= v.index && (v.index < |v.images| || v.index == 0)
  }

  /** The page right after it is opened. */
  const Initial := View([], 0, map[])

  /** What the server's listing call answers: the image paths, or an error (an HTTP error, a
      failed request or `success: false` all end the same way). */
  datatype Reply = Listed(paths: seq<string>) | Failed(message: string)

  // ---------------------------------------------------------------------------------------
  // What each handler does to the state

  /** `nextImage`: one step forward, unless the last image is on screen. */
  function Next(v: View): View {
    if v.index < |v.images| - 1 then v.(index := v.index + 1) else v
  }

  /** `previousImage`: one step back, unless the first image is on screen. */
  function Previous(v: View): View {
    if v.index > 0 then v.(index := v.index - 1) else v
  }

  /** `markImage(quality)`: record the mark for the image on screen. */
  function Mark(v: View, quality: string, now: string): View
    requires InBounds(v)
  {
    if v.images == [] then v
    else v.(annotations := v.annotations[v.images[v.index] := Annotation(quality, now)])
  }

  /** `handleKeyPress`: the lower-cased key picks the handler; other keys, and every key while
      no image is loaded, do nothing. */
  function Key(v: View, key: string, now: string): View
    requires InBounds(v)
  {
    if v.images == [] then v
    else
      var k := Lower(key);
      if k == "j" then Next(v)
      else if k == "k" then Previous(v)
      else if k == "h" then Mark(v, Bad, now)
      else if k == "l" then Mark(v, Good, now)
      else v
  }

  /** `loadImages`: a blank folder field does nothing; a listing replaces the images and starts
      over at the first one with no marks; a failure leaves everything as it was. */
  function Load(v: View, folderInput: string, reply: Reply): View {
    if JsTrim(folderInput) == [] then v
    else match reply
      case Listed(paths) => View(paths, 0, map[])
      case Failed(_) => v
  }

  /** `n` presses of "j". */
  function Advance(v: View, n: nat): View
    decreases n
  {
    if n == 0 then v else Advance(Next(v), n - 1)
  }

  // ---------------------------------------------------------------------------------------
  // What the page shows

  /** The image name shown under the picture: the text after the last '/' or '\'. */
  function DisplayName(path: string): string { AfterLast(path, {'/', '\\'}) }

  /** The image name in status messages: the text after the last '/' only. */
  function StatusName(path: string): string { AfterLast(path, {'/'}) }

  /** The status line: the name of the image on screen and its mark, if it has one. */
  datatype Status = Status(name: string, quality: Option<string>)

  function CurrentStatus(v: View): Option<Status>
    requires InBounds(v)
  {
    if v.images == [] then None
    else
      var path := v.images[v.index];
      Some(Status(StatusName(path),
                  if path in v.annotations then Some(v.annotations[path].quality) else None))
  }

  /** The progress counter "`index + 1` / `count`", or nothing while no image is loaded. */
  function ProgressText(v: View): Option<string>
    requires InBounds(v)
  {
    if v.images == [] then None
    else Some(Decimal(v.index + 1) + " / " + Decimal(|v.images|))
  }

  /** Reading a counter back: the two numbers around " / ". */
  function ReadProgress(t: string): Option<(nat, nat)> {
    var a := LeadingDigits(t);
    var rest := t[|a|..];
    if a != [] && |rest| > 3 && rest[..3] == " / " && AllDigits(rest[3..]) then
      Some((DigitsValue(a), DigitsValue(rest[3..])))
    else None
  }

  // ---------------------------------------------------------------------------------------
  // Properties

  /** Every handler keeps the index on an image (or at 0 with none loaded). */
  lemma {:induction false} HandlersKeepBounds(v: View, quality: string, key: string, now: string,
                                              folderInput: string, reply: Reply)
    requires InBounds(v)
    ensures InBounds(Next(v)) && InBounds(Previous(v)) && InBounds(Mark(v, quality, now))
    ensures InBounds(Key(v, key, now)) && InBounds(Load(v, folderInput, reply))
  {
  }

  /** "j" stops at the last image and "k" at the first: each changes the state exactly when
      there is an image further on in its direction, and then moves by one and touches nothing
      else. */
  lemma {:induction false} NavigationSteps(v: View)
    requires InBounds(v)
    ensures Next(v) == v <==> v.index >= |v.images| - 1
    ensures Next(v) != v ==> Next(v) == v.(index := v.index + 1)
    ensures Previous(v) == v <==> v.index == 0
    ensures Previous(v) != v ==> Previous(v) == v.(index := v.index - 1)
  {
  }

  /** Away from the ends, "k" undoes "j" and "j" undoes "k". */
  lemma {:induction false} NextPreviousInverse(v: View)
    requires InBounds(v)
    ensures v.index < |v.images| - 1 ==> Previous(Next(v)) == v
    ensures v.index > 0 ==> Next(Previous(v)) == v
  {
  }

  /** Pressing "j" n times moves n images on, stopping at the last one. */
  lemma {:induction false} AdvanceStopsAtLast(v: View, n: nat)
    requires InBounds(v) && v.images != []
    ensures Advance(v, n).images == v.images && Advance(v, n).annotations == v.annotations
    ensures Advance(v, n).index == if v.index + n < |v.images| then v.index + n else |v.images| - 1
    decreases n
  {
    if n > 0 {
      AdvanceStopsAtLast(Next(v), n - 1);
    }
  }

  /** A mark sets the entry of the image on screen and no other; with no image loaded it does
      nothing. */
  lemma {:induction false} MarkSetsOneEntry(v: View, quality: string, now: string)
    requires InBounds(v)
    ensures var w := Mark(v, quality, now);
      && w.images == v.images && w.index == v.index
      && (v.images == [] ==> w == v)
      && (v.images != [] ==>
            && w.annotations.Keys == v.annotations.Keys + {v.images[v.index]}
            && w.annotations[v.images[v.index]] == Annotation(quality, now)
            && forall p :: p in v.annotations && p != v.images[v.index] ==>
                 w.annotations[p] == v.annotations[p])
  {
  }

  /** Marking the same image again replaces the earlier mark. */
  lemma {:induction false} LatestMarkWins(v: View, q1: string, t1: string, q2: string, t2: string)
    requires InBounds(v)
    ensures Mark(Mark(v, q1, t1), q2, t2) == Mark(v, q2, t2)
  {
  }

  /** After a mark the status line shows the image's name and the new quality. */
  lemma {:induction false} StatusAfterMark(v: View, quality: string, now: string)
    requires InBounds(v) && v.images != []
    ensures CurrentStatus(Mark(v, quality, now)) == Some(Status(StatusName(v.images[v.index]), Some(quality)))
  {
  }

  lemma {:induction false} LowerIdempotent(s: string)
    ensures Lower(Lower(s)) == Lower(s)
  {
  }

  /** The keys are read without regard to case: "J" acts as "j", and so on. */
  lemma {:induction false} KeyCaseInsensitive(v: View, key: string, now: string)
    requires InBounds(v)
    ensures Key(v, key, now) == Key(v, Lower(key), now)
  {
    LowerIdempotent(key);
  }

  /** "j" and "J" go forward, "k" and "K" back, "h" and "H" mark Bad, "l" and "L" mark Good,
      once images are loaded. */
  lemma {:induction false} KeyBindings(v: View, now: string)
    requires InBounds(v) && v.images != []
    ensures Key(v, "j", now) == Key(v, "J", now) == Next(v)
    ensures Key(v, "k", now) == Key(v, "K", now) == Previous(v)
    ensures Key(v, "h", now) == Key(v, "H", now) == Mark(v, Bad, now)
    ensures Key(v, "l", now) == Key(v, "L", now) == Mark(v, Good, now)
  {
    assert Lower("J") == "j";
    assert Lower("K") == "k";
    assert Lower("H") == "h";
    assert Lower("L") == "l";
  }

  /** Every other key, and every key before images are loaded, leaves the page as it is. */
  lemma {:induction false} OtherKeysIgnored(v: View, key: string, now: string)
    requires InBounds(v)
    requires v.images == [] || Lower(key) !in ["j", "k", "h", "l"]
    ensures Key(v, key, now) == v
  {
  }

  /** A blank folder field or a failed call changes nothing. */
  lemma {:induction false} LoadIgnored(v: View, folderInput: string, reply: Reply)
    requires JsTrim(folderInput) == [] || reply.Failed?
    ensures Load(v, folderInput, reply) == v
  {
  }

  /** A listing starts over: its first image on screen, unmarked, and the counter at 1. */
  lemma {:induction false} LoadStartsOver(v: View, folderInput: string, paths: seq<string>)
    requires JsTrim(folderInput) != []
    ensures var w := Load(v, folderInput, Listed(paths));
      && w.images == paths && w.index == 0 && w.annotations == map[]
      && (paths == [] ==> CurrentStatus(w).None? && ProgressText(w).None?)
      && (paths != [] ==>
            && CurrentStatus(w) == Some(Status(StatusName(paths[0]), None))
            && ProgressText(w).Some? && ReadProgress(ProgressText(w).value) == Some((1, |paths|)))
  {
    var w := Load(v, folderInput, Listed(paths));
    assert w == View(paths, 0, map[]);
    if paths != [] {
      ProgressReadsBack(w);
    }
  }

  /** The counter reads back as the position (from 1) and the number of images, so it always
      shows 1 <= position <= count and two different states show different counters. */
  lemma {:induction false} ProgressReadsBack(v: View)
    requires InBounds(v) && v.images != []
    ensures ProgressText(v).Some?
    ensures ReadProgress(ProgressText(v).value) == Some((v.index + 1, |v.images|))
    ensures 1 <= v.index + 1 <= |v.images|
  {
    var a := Decimal(v.index + 1);
    var b := Decimal(|v.images|);
    var z := " / " + b;
    var t := a + z;
    assert ProgressText(v).value == t;
    LeadingDigitsOf(a, z);
    assert LeadingDigits(t) == a;
    assert t[|a|..] == z;
    assert z[..3] == " / " && z[3..] == b;
    DecimalRoundTrip(v.index + 1);
    DecimalRoundTrip(|v.images|);
  }

  /** Of two separator sets, the larger one leaves a suffix of what the smaller one leaves. */
  lemma {:induction false} AfterLastMoreSeparators(s: string, few: set<char>, more: set<char>)
    requires few <= more
    ensures |AfterLast(s, more)| <= |AfterLast(s, few)|
    ensures AfterLast(s, more) == AfterLast(s, few)[|AfterLast(s, few)| - |AfterLast(s, more)|..]
  {
    if s != [] && s[|s| - 1] !in more {
      AfterLastMoreSeparators(s[..|s| - 1], few, more);
    }
  }

  /** The displayed name is the end of the status name, and the two agree exactly when the
      status name holds no backslash; a Windows path such as "C:\photos\a.jpg" is shown as
      "a.jpg" but reported whole. */
  lemma {:induction false} NamesAgreeUnlessBackslash(path: string)
    ensures |DisplayName(path)| <= |StatusName(path)|
    ensures DisplayName(path) == StatusName(path)[|StatusName(path)| - |DisplayName(path)|..]
    ensures DisplayName(path) == StatusName(path) <==> '\\' !in StatusName(path)
  {
    var d := DisplayName(path);
    var s := StatusName(path);
    AfterLastMoreSeparators(path, {'/'}, {'/', '\\'});
  }

  // ---------------------------------------------------------------------------------------
  // The page's state and its handlers

  class Annotator {
    var images: seq<string>
    var currentIndex: int
    var annotations: map<string, Annotation>

    function State(): View
      reads this
    {
      View(images, currentIndex, annotations)
    }

    /** The globals as the page declares them. */
    constructor ()
      ensures State() == Initial && InBounds(State())
    {
      images := [];
      currentIndex := 0;
      annotations := map[];
    }

    method NextImage()
      modifies this
      ensures State() == Next(old(State()))
    {
      if currentIndex < |images| - 1 {
        currentIndex := currentIndex + 1;
      }
    }

    method PreviousImage()
      modifies this
      ensures State() == Previous(old(State()))
    {
      if currentIndex > 0 {
        currentIndex := currentIndex - 1;
      }
    }

    /** The mark's time is `now`, the clock reading the page takes. */
    method MarkImage(quality: string, now: string)
      requires InBounds(State())
      modifies this
      ensures State() == Mark(old(State()), quality, now)
    {
      if |images| == 0 {
        return;
      }
      var imagePath := images[currentIndex];
      annotations := annotations[imagePath := Annotation(quality, now)];
    }

    method MarkGood(now: string)
      requires InBounds(State())
      modifies this
      ensures State() == Mark(old(State()), Good, now)
    {
      MarkImage(Good, now);
    }

    method MarkBad(now: string)
      requires InBounds(State())
      modifies this
      ensures State() == Mark(old(State()), Bad, now)
    {
      MarkImage(Bad, now);
    }

    method HandleKeyPress(key: string, now: string)
      requires InBounds(State())
      modifies this
      ensures State() == Key(old(State()), key, now)
      ensures InBounds(State())
    {
      if |images| == 0 {
        return;
      }
      var k := Lower(key);
      if k == "j" {
        NextImage();
      } else if k == "k" {
        PreviousImage();
      } else if k == "h" {
        MarkBad(now);
      } else if k == "l" {
        MarkGood(now);
      }
      HandlersKeepBounds(old(State()), Good, key, now, [], Failed([]));
    }

    /** The folder field's text and the server's reply are parameters. */
    method LoadImages(folderInput: string, reply: Reply)
      modifies this
      ensures State() == Load(old(State()), folderInput, reply)
    {
      var folderPath := JsTrim(folderInput);
      if folderPath == [] {
        return;
      }
      if reply.Listed? {
        images := reply.paths;
        currentIndex := 0;
        annotations := map[];
      }
    }
  }
}
