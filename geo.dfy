/** server/utils/geo.py: whether a client lies inside a video's eligibility
    circle, and the order-preserving selection of the videos that cover a
    client. The geodesic distance is a parameter: any function from two points
    to kilometres. */
module Geo {
  import opened Seqs
  import opened Models

  datatype Point = Point(lat: real, lon: real)

  /** Great-circle distance in kilometres between two points. */
  type Distance = (Point, Point) -> real

  /** `is_within_radius`: the client is inside the circle, boundary included. */
  predicate IsWithinRadius(dist: Distance, client: Point, video: Point, radiusKm: real)
  {
    dist(client, video) <= radiusKm
  }

  function Center(v: Video): Point
  {
    Point(v.latitude, v.longitude)
  }

  /** Whether video `v`'s circle contains `client`. */
  function Covers(dist: Distance, client: Point): Video -> bool
  {
    (v: Video) => IsWithinRadius(dist, client, Center(v), v.radiusKm)
  }

  /** The videos whose circle contains `client`, in input order. */
  function NearbyVideos(dist: Distance, client: Point, videos: seq<Video>): seq<Video>
  {
    Filter(Covers(dist, client), videos)
  }

  /** The boundary is inclusive: a client exactly `radiusKm` away is inside. */
  lemma BoundaryIsInside(dist: Distance, client: Point, video: Point)
    ensures IsWithinRadius(dist, client, video, dist(client, video))
  {
  }

  /** Growing the radius never drops a client that was inside. */
  lemma WithinRadiusMonotone(dist: Distance, client: Point, video: Point, r: real, r': real)
    requires IsWithinRadius(dist, client, video, r) && r <= r'
    ensures IsWithinRadius(dist, client, video, r')
  {
  }

  /** The selection is a subsequence of the input (order kept, nothing
      invented), holds exactly the covering videos, and is empty for an empty
      input. */
  lemma NearbyVideosSpec(dist: Distance, client: Point, videos: seq<Video>)
    ensures IsSubsequence(NearbyVideos(dist, client, videos), videos)
    ensures forall v :: v in NearbyVideos(dist, client, videos) <==>
                        v in videos && IsWithinRadius(dist, client, Center(v), v.radiusKm)
    ensures |NearbyVideos(dist, client, videos)| <= |videos|
    ensures videos == [] ==> NearbyVideos(dist, client, videos) == []
  {
    FilterIsSubsequence(Covers(dist, client), videos);
    forall v ensures v in NearbyVideos(dist, client, videos) <==>
                     v in videos && IsWithinRadius(dist, client, Center(v), v.radiusKm)
    {
      FilterMember(Covers(dist, client), videos, v);
    }
  }

  /** `get_videos_for_location`: walk the videos, appending each one whose
      circle contains the client. */
  method GetVideosForLocation(videos: seq<Video>, clientLat: real, clientLon: real, dist: Distance)
    returns (available: seq<Video>)
    ensures available == NearbyVideos(dist, Point(clientLat, clientLon), videos)
  {
    var client := Point(clientLat, clientLon);
    available := [];
    var i := 0;
    while i < |videos|
      invariant 0 <= i <= |videos|
      invariant available == NearbyVideos(dist, client, videos[..i])
    {
      var video := videos[i];
      if IsWithinRadius(dist, client, Point(video.latitude, video.longitude), video.radiusKm) {
        available := available + [video];
      }
      assert videos[..i + 1][..i] == videos[..i];
      i := i + 1;
    }
    assert videos[..i] == videos;
  }
}
