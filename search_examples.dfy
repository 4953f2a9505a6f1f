/**
 * `getSearchExamples`: the suggestions offered in the track search box. Nineteen fixed
 * query examples come first, then one example per label, per distinct album and per
 * distinct artist of the user's tracks, each quoting the name into a search term.
 */
module SearchExamples {
  import Seqs

  /** A suggestion: the query text and what it means. */
  datatype Example = Example(value: string, description: string)

  /** A track as the examples read it: its album's name and its artists' names. */
  datatype TrackSummary = TrackSummary(albumName: string, artistNames: seq<string>)

  /** The query's reply: `{ success: true, data: { examples } }`. */
  datatype Response = Response(success: bool, examples: seq<Example>)

  /** The `i`-th fixed example, in their listed order. */
  function FixedExample(i: nat): (e: Example)
    requires i < 19
  {
    match i
      case 0 => Example("clean", "Clean")
      case 1 => Example("explicit", "Explicit")
      case 2 => Example("unlabeled", "Has no labels")
      case 3 => Example("added=2020", "Added in 2020")
      case 4 => Example("added<=2020", "Added in or before 2020")
      case 5 => Example("added>2020", "Added after 2020")
      case 6 => Example("added<4-1-2020", "Added before April 1, 2020")
      case 7 => Example("added>=4-1-2020", "Added on or after April 1, 2020")
      case 8 => Example("added=7d", "Added 7 days ago")
      case 9 => Example("added<3m", "Added less than 3 months ago")
      case 10 => Example("added>=1y", "Added more than 1 year ago")
      case 11 => Example("released=2020", "Released in 2020")
      case 12 => Example("released<=2020", "Released in or before 2020")
      case 13 => Example("released>2020", "Released after 2020")
      case 14 => Example("released<4-1-2020", "Released before April 1, 2020")
      case 15 => Example("released>=4-1-2020", "Released on or after April 1, 2020")
      case 16 => Example("released=7d", "Released 7 days ago")
      case 17 => Example("released<3m", "Released less than 3 months ago")
      case _ => Example("released>=1y", "Released more than 1 year ago")
  }

  /** The fixed examples, in their listed order. */
  function FixedExamples(): (r: seq<Example>)
    ensures |r| == 19
  {
    seq(19, i requires 0 <= i < 19 => FixedExample(i))
  }

  // ---------------------------------------------------------------------------------------
  // lodash `uniq` and `flatMap`
  // ---------------------------------------------------------------------------------------

  /** The position of the first occurrence of `x`. */
  function FirstIndex(s: seq<string>, x: string): (i: nat)
    requires x in s
    ensures i < |s| && s[i] == x && x !in s[..i]
  {
    if s[0] == x then 0
    else
      var j := FirstIndex(s[1..], x);
      assert s[..j + 1] == [s[0]] + s[1..][..j];
      j + 1
  }

  /** The first occurrence is the only occurrence with none before it. */
  lemma FirstIndexUnique(s: seq<string>, x: string, i: nat)
    requires i < |s| && s[i] == x && x !in s[..i]
    ensures FirstIndex(s, x) == i
  {
  }

  /** An element of a prefix first occurs at the same position in the whole sequence. */
  lemma FirstIndexPrefix(s: seq<string>, n: nat, x: string)
    requires n <= |s| && x in s[..n]
    ensures FirstIndex(s, x) == FirstIndex(s[..n], x)
  {
    var i := FirstIndex(s[..n], x);
    assert s[..n][..i] == s[..i];
    FirstIndexUnique(s, x, i);
  }

  /** `uniq`: each value once, at its first occurrence. */
  function Uniq(s: seq<string>): (r: seq<string>)
    ensures Seqs.Distinct(r)
    ensures forall x :: x in r <==> x in s
    ensures |r| <= |s|
  {
    if s == [] then []
    else
      var init := s[..|s| - 1];
      var r := Uniq(init);
      assert s == init + [s[|s| - 1]];
      if s[|s| - 1] in r then r else r + [s[|s| - 1]]
  }

  /** `uniq` keeps the values in the order of their first occurrences. */
  lemma {:induction false} UniqFirstAppearanceOrder(s: seq<string>)
    ensures forall i, j :: 0 <= i < j < |Uniq(s)| ==> FirstIndex(s, Uniq(s)[i]) < FirstIndex(s, Uniq(s)[j])
  {
    if s != [] {
      var n := |s|;
      var init := s[..n - 1];
      var r := Uniq(init);
      UniqFirstAppearanceOrder(init);
      forall x | x in r ensures FirstIndex(s, x) == FirstIndex(init, x) && FirstIndex(s, x) < n - 1 {
        FirstIndexPrefix(s, n - 1, x);
      }
      if s[n - 1] !in r {
        FirstIndexUnique(s, s[n - 1], n - 1);
        assert forall i :: 0 <= i < |r| ==> (r + [s[n - 1]])[i] == r[i];
      }
    }
  }

  /** `flatMap` of the artists' names: every track's names, track by track. */
  function Flatten(ss: seq<seq<string>>): (r: seq<string>)
    ensures forall x :: x in r <==> exists i :: 0 <= i < |ss| && x in ss[i]
  {
    if ss == [] then []
    else
      var rest := Flatten(ss[1..]);
      assert forall i :: 0 <= i < |ss[1..]| ==> ss[1..][i] == ss[i + 1];
      ss[0] + rest
  }

  /** Some track is on the album called `name`. */
  predicate HasAlbum(tracks: seq<TrackSummary>, name: string) {
    exists t :: t in tracks && t.albumName == name
  }

  /** Some track credits an artist called `name`. */
  predicate HasArtist(tracks: seq<TrackSummary>, name: string) {
    exists t :: t in tracks && name in t.artistNames
  }

  /** `tracks.map((track) => track.album.name)`: one album name per track, in track order
      (the tracks come newest first). */
  function TrackAlbumNames(tracks: seq<TrackSummary>): (all: seq<string>)
    ensures |all| == |tracks|
    ensures forall i :: 0 <= i < |tracks| ==> all[i] == tracks[i].albumName
  {
    seq(|tracks|, i requires 0 <= i < |tracks| => tracks[i].albumName)
  }

  /** The `flatMap` of the artists' names, track by track. */
  function TrackArtistNames(tracks: seq<TrackSummary>): (all: seq<string>)
    ensures forall name :: name in all <==> HasArtist(tracks, name)
  {
    var perTrack := seq(|tracks|, i requires 0 <= i < |tracks| => tracks[i].artistNames);
    assert forall i :: 0 <= i < |tracks| ==> tracks[i] in tracks && perTrack[i] == tracks[i].artistNames;
    forall t | t in tracks ensures exists i :: 0 <= i < |perTrack| && t.artistNames == perTrack[i] {
      var i :| 0 <= i < |tracks| && tracks[i] == t;
      assert perTrack[i] == t.artistNames;
    }
    Flatten(perTrack)
  }

  /** `uniq(tracks.map((track) => track.album.name))`: each album of the tracks once, in
      the order of each album's first track. */
  function AlbumNames(tracks: seq<TrackSummary>): (r: seq<string>)
    ensures Seqs.Distinct(r)
    ensures forall name :: name in r <==> HasAlbum(tracks, name)
    ensures forall name :: name in r ==> name in TrackAlbumNames(tracks)
    ensures forall i, j :: 0 <= i < j < |r| ==>
      FirstIndex(TrackAlbumNames(tracks), r[i]) < FirstIndex(TrackAlbumNames(tracks), r[j])
  {
    var all := TrackAlbumNames(tracks);
    assert forall i :: 0 <= i < |tracks| ==> tracks[i] in tracks;
    forall t | t in tracks ensures t.albumName in all {
      var i :| 0 <= i < |tracks| && tracks[i] == t;
      assert all[i] == t.albumName;
    }
    UniqFirstAppearanceOrder(all);
    Uniq(all)
  }

  /** `uniq(tracks.flatMap((track) => track.artists.map((artist) => artist.name)))`: each
      artist of the tracks once, in the order of first appearance in the flattened lists. */
  function ArtistNames(tracks: seq<TrackSummary>): (r: seq<string>)
    ensures Seqs.Distinct(r)
    ensures forall name :: name in r <==> HasArtist(tracks, name)
    ensures forall name :: name in r ==> name in TrackArtistNames(tracks)
    ensures forall i, j :: 0 <= i < j < |r| ==>
      FirstIndex(TrackArtistNames(tracks), r[i]) < FirstIndex(TrackArtistNames(tracks), r[j])
  {
    var all := TrackArtistNames(tracks);
    UniqFirstAppearanceOrder(all);
    Uniq(all)
  }

  // ---------------------------------------------------------------------------------------
  // Quoting names into search terms
  // ---------------------------------------------------------------------------------------

  /** `label:"NAME"`: the name quoted after the `label:` keyword; the description names it. */
  function LabelExample(name: string): (e: Example)
    ensures |e.value| == |name| + 8 && e.value[..7] == "label:\"" && e.value[|e.value| - 1] == '"'
    ensures |e.description| == |name| + 12
    ensures e.value[7..|e.value| - 1] == name && e.description[11..|e.description| - 1] == name
  {
    Example("label:\"" + name + "\"", "Has label \"" + name + "\"")
  }

  /** `album:"NAME"`. */
  function AlbumExample(name: string): (e: Example)
    ensures |e.value| == |name| + 8 && e.value[..7] == "album:\"" && e.value[|e.value| - 1] == '"'
    ensures |e.description| == |name| + 9
    ensures e.value[7..|e.value| - 1] == name && e.description[9..] == name
  {
    Example("album:\"" + name + "\"", "Album is " + name)
  }

  /** `artist:"NAME"`. */
  function ArtistExample(name: string): (e: Example)
    ensures |e.value| == |name| + 9 && e.value[..8] == "artist:\"" && e.value[|e.value| - 1] == '"'
    ensures |e.description| == |name| + 10
    ensures e.value[8..|e.value| - 1] == name && e.description[10..] == name
  {
    Example("artist:\"" + name + "\"", "Artist is " + name)
  }

  /** A quoted term determines the name inside the quotes. */
  lemma QuotedInjective(prefix: string, a: string, b: string)
    requires prefix + a + "\"" == prefix + b + "\""
    ensures a == b
  {
    var t := prefix + a + "\"";
    assert |a| == |b|;
    assert t[|prefix|..|prefix| + |a|] == a;
    assert (prefix + b + "\"")[|prefix|..|prefix| + |b|] == b;
  }

  /** Different names give different label examples. */
  lemma LabelExampleInjective(a: string, b: string)
    ensures LabelExample(a) == LabelExample(b) ==> a == b
  {
    if LabelExample(a) == LabelExample(b) {
      QuotedInjective("label:\"", a, b);
    }
  }

  /** Different names give different album examples. */
  lemma AlbumExampleInjective(a: string, b: string)
    ensures AlbumExample(a) == AlbumExample(b) ==> a == b
  {
    if AlbumExample(a) == AlbumExample(b) {
      QuotedInjective("album:\"", a, b);
    }
  }

  /** Different names give different artist examples. */
  lemma ArtistExampleInjective(a: string, b: string)
    ensures ArtistExample(a) == ArtistExample(b) ==> a == b
  {
    if ArtistExample(a) == ArtistExample(b) {
      QuotedInjective("artist:\"", a, b);
    }
  }

  /** The label section: one `label:"NAME"` example per label name, in order. An example is
      in the section exactly when its name is, and distinct names give distinct examples. */
  function LabelExamples(labelNames: seq<string>): (section: seq<Example>)
    ensures |section| == |labelNames|
    ensures forall i :: 0 <= i < |labelNames| ==> section[i] == LabelExample(labelNames[i])
    ensures forall name :: LabelExample(name) in section <==> name in labelNames
    ensures Seqs.Distinct(labelNames) ==> Seqs.Distinct(section)
  {
    var section := seq(|labelNames|, i requires 0 <= i < |labelNames| => LabelExample(labelNames[i]));
    assert forall name :: LabelExample(name) in section <==> name in labelNames by {
      forall name | name in labelNames ensures LabelExample(name) in section {
        var j :| 0 <= j < |labelNames| && labelNames[j] == name;
        assert section[j] == LabelExample(name);
      }
      forall name | LabelExample(name) in section ensures name in labelNames {
        var j :| 0 <= j < |section| && section[j] == LabelExample(name);
        LabelExampleInjective(labelNames[j], name);
      }
    }
    assert Seqs.Distinct(labelNames) ==> Seqs.Distinct(section) by {
      forall i, j | 0 <= i < j < |section| && labelNames[i] != labelNames[j]
        ensures section[i] != section[j]
      {
        LabelExampleInjective(labelNames[i], labelNames[j]);
      }
    }
    section
  }

  /** The album section: one `album:"NAME"` example per album name, in order. An example is
      in the section exactly when its name is, and distinct names give distinct examples. */
  function AlbumExamples(albums: seq<string>): (section: seq<Example>)
    ensures |section| == |albums|
    ensures forall i :: 0 <= i < |albums| ==> section[i] == AlbumExample(albums[i])
    ensures forall name :: AlbumExample(name) in section <==> name in albums
    ensures Seqs.Distinct(albums) ==> Seqs.Distinct(section)
  {
    var section := seq(|albums|, i requires 0 <= i < |albums| => AlbumExample(albums[i]));
    assert forall name :: AlbumExample(name) in section <==> name in albums by {
      forall name | name in albums ensures AlbumExample(name) in section {
        var j :| 0 <= j < |albums| && albums[j] == name;
        assert section[j] == AlbumExample(name);
      }
      forall name | AlbumExample(name) in section ensures name in albums {
        var j :| 0 <= j < |section| && section[j] == AlbumExample(name);
        AlbumExampleInjective(albums[j], name);
      }
    }
    assert Seqs.Distinct(albums) ==> Seqs.Distinct(section) by {
      forall i, j | 0 <= i < j < |section| && albums[i] != albums[j]
        ensures section[i] != section[j]
      {
        AlbumExampleInjective(albums[i], albums[j]);
      }
    }
    section
  }

  /** The artist section: one `artist:"NAME"` example per artist name, in order. An example is
      in the section exactly when its name is, and distinct names give distinct examples. */
  function ArtistExamples(artists: seq<string>): (section: seq<Example>)
    ensures |section| == |artists|
    ensures forall i :: 0 <= i < |artists| ==> section[i] == ArtistExample(artists[i])
    ensures forall name :: ArtistExample(name) in section <==> name in artists
    ensures Seqs.Distinct(artists) ==> Seqs.Distinct(section)
  {
    var section := seq(|artists|, i requires 0 <= i < |artists| => ArtistExample(artists[i]));
    assert forall name :: ArtistExample(name) in section <==> name in artists by {
      forall name | name in artists ensures ArtistExample(name) in section {
        var j :| 0 <= j < |artists| && artists[j] == name;
        assert section[j] == ArtistExample(name);
      }
      forall name | ArtistExample(name) in section ensures name in artists {
        var j :| 0 <= j < |section| && section[j] == ArtistExample(name);
        ArtistExampleInjective(artists[j], name);
      }
    }
    assert Seqs.Distinct(artists) ==> Seqs.Distinct(section) by {
      forall i, j | 0 <= i < j < |section| && artists[i] != artists[j]
        ensures section[i] != section[j]
      {
        ArtistExampleInjective(artists[i], artists[j]);
      }
    }
    section
  }

  /** The examples for the user's non-smart label names and tracks, both in the order the
      database returned them: the fixed examples, then the label, album and artist
      sections. */
  function GetSearchExamples(labelNames: seq<string>, tracks: seq<TrackSummary>): (r: Response)
    ensures r.success
    ensures |r.examples| == 19 + |labelNames| + |AlbumNames(tracks)| + |ArtistNames(tracks)|
    ensures r.examples[..19] == FixedExamples()
    ensures r.examples[19..19 + |labelNames|] == LabelExamples(labelNames)
    ensures r.examples[19 + |labelNames|..19 + |labelNames| + |AlbumNames(tracks)|]
      == AlbumExamples(AlbumNames(tracks))
    ensures r.examples[19 + |labelNames| + |AlbumNames(tracks)|..]
      == ArtistExamples(ArtistNames(tracks))
  {
    var fixedAndLabels := FixedExamples() + LabelExamples(labelNames);
    var front := fixedAndLabels + AlbumExamples(AlbumNames(tracks));
    var examples := front + ArtistExamples(ArtistNames(tracks));
    assert examples[..|front|] == front;
    assert examples[..|fixedAndLabels|] == fixedAndLabels;
    Response(true, examples)
  }

  /** The album examples name each album of the user's tracks exactly once. */
  lemma AlbumExamplesExact(labelNames: seq<string>, tracks: seq<TrackSummary>, name: string)
    ensures
      var start := 19 + |labelNames|;
      var section := GetSearchExamples(labelNames, tracks).examples[start..start + |AlbumNames(tracks)|];
      && (AlbumExample(name) in section <==> HasAlbum(tracks, name))
      && Seqs.Distinct(section)
  {
  }

  /** The artist examples name each artist of the user's tracks exactly once. */
  lemma ArtistExamplesExact(labelNames: seq<string>, tracks: seq<TrackSummary>, name: string)
    ensures
      var start := 19 + |labelNames| + |AlbumNames(tracks)|;
      var section := GetSearchExamples(labelNames, tracks).examples[start..];
      && (ArtistExample(name) in section <==> HasArtist(tracks, name))
      && Seqs.Distinct(section)
  {
  }
}
