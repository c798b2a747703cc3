# Greek songs collaboration networks in Dafny

The Greek songs dashboards (`greeksongs2.py` and `greeksongs.py`) read a table of songs. Each
song has a year, a composer, a lyricist and a singer. From the songs inside a chosen inclusive
year range, each dashboard draws a collaboration network with pyvis. The two scripts build the
network differently:

- **Co-occurrence network** (`greeksongs2.py`).
  - Every non-missing name in a song becomes a node, even when it is the song's only name.
  - For every ordered pair of distinct names, the nested loop adds 1 to their undirected
    edge. It creates the edge with weight 1 when the edge is missing.
  - Each unordered pair is visited in both orders, so a shared song adds 2 to its weight.
  - Communities are ranked by member count. The ten largest take the palette colours in rank
    order; every other community is grey.
  - A node's size is 5 plus twice its unweighted degree. An edge is as wide as its weight.
- **Triangle network** (`greeksongs.py`).
  - Each song adds the edges composer–lyricist, lyricist–singer and singer–composer.
  - Node names are the printed fields, so a missing field becomes the node `"nan"`.
  - Every edge is added with `weight=1`, and re-adding an edge overwrites the weight with 1.
  - A node's size is twice its weighted degree. Its colour is the colour-table entry at its
    community identifier modulo the table length. An edge is half as wide as its weight.

The project is split into these modules:

- `records.dfy` (`Records`): the song row and the year-range filter.
- `graph.dfy` (`Graphs`): the part of an undirected networkx graph the scripts use.
  - It is a class over the adjacency map `adj[u][v] = weight`.
  - `Valid()` keeps both directions of an edge equal, because networkx shares one attribute
    record between them.
  - It holds the node, edge, degree and weighted-degree operations.
- `cooccurrence.dfy` (`Cooccurrence`): the builder of `greeksongs2.py`.
  - It is written as imperative methods over the graph.
  - Its specification functions are `Participants` (the nodes) and `CoWeight` (twice the
    number of songs that name both people).
- `cooccurrence_style.dfy` (`CooccurrenceStyle`): community ranking, node colour, node size
  and edge width for `greeksongs2.py`.
- `triangle.dfy` (`Triangle`): the builder of `greeksongs.py`. Its specification is
  `TriangleNodes` and the predicate `Linked`, which holds when some song draws the edge.
- `triangle_style.dfy` (`TriangleStyle`): weighted degrees, node size, colour index and edge
  width for `greeksongs.py`.
- `scenarios.dfy` (`Scenarios`): three concrete songs pushed through both builders, and an
  empty year range.

The community partition is produced by an external Louvain routine, so it is an input here:
any map from node names to natural numbers. The colour tables are abstract sequences of colour
names.

Line 86 of `greeksongs2.py` selects the row's columns with a stray quote (`[''Composer', ...`).
As written, that line does not parse. The model uses the evidently intended column list:
composer, lyricist, singer.

Unlike the co-occurrence builder, the triangle builder does not count the songs that draw a
pair. `add_edge(..., weight=1)` overwrites the weight, so `Triangle.Build` proves that every
edge has weight exactly 1. `Scenarios.TriangleThreeSongs` shows that the pair A–B, drawn by
three songs, is simply joined.

## Model

| member | source | states |
|---|---|---|
| Records.Filter | greeksongs2.py:82 | Every kept row has its year in [lo, hi], both bounds inclusive, and no more rows are kept than given. The same filter is greeksongs.py line 40. |
| Records.FilterCounts | greeksongs2.py:82 | Every row in the range is kept as often as it occurs, and no row outside it is kept. |
| Records.FilterAppend | greeksongs2.py:82 | The filter keeps the original order: filtering two consecutive stretches of rows gives the first's kept rows followed by the second's. |
| Records.FilterNarrower | greeksongs2.py:82 | Filtering by a range and then by a narrower range is the same as filtering by the narrower range alone. |
| Records.FilterEmptyRange | greeksongs2.py:82 | A range that holds no row's year keeps no row. For example, songs from 1960 filtered to [1970, 1980], or any range with its lower bound above its upper bound. |
| Graphs.WeightSumAt | greeksongs.py:86 | A node's sum of incident weights can be split at any neighbour, so it does not depend on the order in which neighbours are visited. |
| Graphs.WeightSumBounds | greeksongs.py:86 | The sum of incident weights is at least the number of neighbours, and equals it when every weight is 1. |
| Graphs.SetEdge | greeksongs.py:80-82 | Setting the weight of {u, v} creates any missing end point and gives both directions the weight w. Every other pair keeps its weight, and the adjacency stays symmetric. |
| Graphs.Graph.constructor | greeksongs2.py:83 | A new graph has no node and no edge. |
| Graphs.Graph.AddNode | greeksongs2.py:88 | Adding a node adds it to the node set (nothing happens if it is present) and changes no weight. |
| Graphs.Graph.HasEdge | greeksongs2.py:92 | It reports an edge exactly when the pair has positive weight, seen from either end. |
| Graphs.Graph.AddEdge | greeksongs2.py:95 | The edge {u, v} gets weight w, overwriting any earlier weight. Its end points become nodes and all other pairs keep their weight. The triangle builder relies on this at greeksongs.py lines 80-82. |
| Graphs.Graph.IncrementWeight | greeksongs2.py:93 | An existing edge's weight grows by exactly 1 from both ends. The node set and every other weight stay the same. |
| Graphs.Graph.Degree | greeksongs2.py:112 | The degree is 0 exactly when the node has no edge. Without a self-loop it is the number of distinct neighbours. |
| Graphs.Graph.WeightedDegree | greeksongs.py:86 | The loop over the neighbours returns the sum of incident weights, with a self-loop counted twice. |
| Cooccurrence.People | greeksongs2.py:86 | A row's people are exactly its non-missing composer, lyricist and singer names, without repetition. |
| Cooccurrence.ParticipantsIff | greeksongs2.py:85-88 | A name is a node of the network exactly when some row names it. |
| Cooccurrence.CoCountBounds | greeksongs2.py:89-95 | The number of rows shared by two people is symmetric and at most the number of rows. |
| Cooccurrence.CoCountPositive | greeksongs2.py:89-95 | Two people share a positive count exactly when some row names both. |
| Cooccurrence.EdgeIffSharedRow | greeksongs2.py:89-95 | There is an edge between a and b exactly when they are distinct and share a row. The weight is even and the same from both ends, and no self-loop is ever drawn. |
| Cooccurrence.CoCountFilter | greeksongs2.py:82 | Filtering rows never raises the number of rows two people share. |
| Cooccurrence.CoWeightNarrower | greeksongs2.py:82 | Narrowing the year range never raises an edge weight. |
| Cooccurrence.ParticipantsFilter | greeksongs2.py:82 | Filtering rows never adds a node. |
| Cooccurrence.ParticipantsNarrower | greeksongs2.py:82 | Narrowing the year range never introduces a node. |
| Cooccurrence.SoloParticipant | greeksongs2.py:86-88 | Someone who appears in rows only alone has no edge at all. |
| Cooccurrence.AddPeople | greeksongs2.py:87-88 | Every person of the row becomes a node, and no weight changes. |
| Cooccurrence.Visit | greeksongs2.py:91-95 | Visiting an ordered pair of distinct people adds 1 to their edge, creating it with weight 1 when missing. Equal people change nothing, and no other pair changes. |
| Cooccurrence.BumpFrom | greeksongs2.py:90-95 | The inner loop for p1 adds 1 to the edge between p1 and every other person of the row, and to nothing else. |
| Cooccurrence.AddRow | greeksongs2.py:86-95 | Handling one row adds its people as nodes and adds 2 to every distinct pair among them. Every other weight keeps its value, so weights only grow. |
| Cooccurrence.PrefixStep | greeksongs2.py:85 | One more row adds its people to the nodes and 2 to each of its distinct pairs. |
| Cooccurrence.Build | greeksongs2.py:82-95 | The built graph is symmetric. Its nodes are the people of the rows in the year range, and each weight is twice the number of those rows naming both people (0 on the diagonal). |
| CooccurrenceStyle.ClassCounts | greeksongs2.py:99 | The value counts hold exactly the communities that occur, each with its member count, which is at least 1. |
| CooccurrenceStyle.LargestExists | greeksongs2.py:100 | Every non-empty set of communities has one with a maximal count. |
| CooccurrenceStyle.TopClasses | greeksongs2.py:99-100 | The ranking holds min(k, number of communities) distinct communities in non-increasing count order. No community outside it has more members than one inside it. |
| CooccurrenceStyle.IndexOf | greeksongs2.py:107 | It returns the position of the first occurrence of the community in the ranking. |
| CooccurrenceStyle.NodeColor | greeksongs2.py:104-108 | A node of an unranked community is grey. A node of a ranked community gets the palette colour at its rank, which never wraps when the palette is as long as the ranking. |
| CooccurrenceStyle.ColoursSeparateRankedCommunities | greeksongs2.py:103-108 | Take a palette of distinct non-grey colours, at least as long as the ranking. Two nodes then share a colour exactly when they share a community or both communities are unranked. |
| CooccurrenceStyle.DistinctElements | greeksongs2.py:100 | A ranking without repetitions holds as many communities as it has entries. |
| CooccurrenceStyle.UnrankedAreGrey | greeksongs2.py:100-108 | Every node of an unranked community is grey, and the number of grey communities is the number of communities minus the ranking's length. With 15 communities and 10 ranked, 5 are grey. |
| CooccurrenceStyle.NodeSize | greeksongs2.py:111-112 | A node's size is at least 5, and exactly 5 when it has no edge. |
| CooccurrenceStyle.CoNodeSize | greeksongs2.py:111-112 | In the built network, a node's neighbours are exactly the other people it shares a row with. Its size is 5 plus twice their number. |
| CooccurrenceStyle.SoloNodeSize | greeksongs2.py:111-112 | A person who appears only alone in rows is drawn at the base size 5. |
| CooccurrenceStyle.EdgeWidth | greeksongs2.py:119-120 | An edge is drawn at least 1 wide, with the same width from either end. |
| CooccurrenceStyle.StyleNodes | greeksongs2.py:116-117 | Every node, and nothing else, gets its community colour and its degree-based size. |
| CooccurrenceStyle.StyleNetwork | greeksongs2.py:99-117 | Counting members and ranking ten communities with a ten-colour palette gives a ranking of min(10, number of communities) distinct communities in non-increasing member count. No community left out has more members than a ranked one. Every node of a ranked community gets the palette colour at its rank, and every other node is grey. Every node, and nothing else, is sized 5 plus twice its degree. |
| Triangle.LinkedIff | greeksongs.py:79-82 | The predicate Linked holds exactly when some row draws the pair as composer–lyricist, lyricist–singer or singer–composer. |
| Triangle.SelfLoopIff | greeksongs.py:80-82 | A self-loop on a exists exactly when some row gives two of its roles the printed name a. |
| Triangle.NodesAreLinked | greeksongs.py:79-82 | A name is a node exactly when it has some edge, so the triangle network has no isolated node. |
| Triangle.LinkedFilter | greeksongs.py:40 | Filtering rows never draws a new edge. |
| Triangle.LinkedNarrower | greeksongs.py:40 | Narrowing the year range never draws a new edge and never introduces a node. |
| Triangle.AddTriangle | greeksongs.py:80-82 | One row's three sides get weight 1 and their printed names become nodes. Every other pair keeps its weight. |
| Triangle.PrefixStep | greeksongs.py:79 | One more row adds its printed names and its triangle. |
| Triangle.Build | greeksongs.py:78-82 | The built graph is symmetric. Its nodes are the printed names of the rows in the year range (missing fields as "nan"), and each pair has weight 1 if some such row draws it, else 0. |
| TriangleStyle.ColourIndex | greeksongs.py:90 | The colour index is always a valid table position, and equals the community identifier when that is one. |
| TriangleStyle.NodeColour | greeksongs.py:90 | Every node gets a colour of the table. |
| TriangleStyle.ColoursOfCommunities | greeksongs.py:90 | Nodes of one community share a colour. With distinct table colours, communities with identifiers below the table length never share one. |
| TriangleStyle.WeightedDegrees | greeksongs.py:86 | The attribute table maps every node, and nothing else, to its weighted degree. |
| TriangleStyle.StyleNodes | greeksongs.py:89-90 | Every node, and nothing else, gets the colour of its community and twice its weighted degree as its size. |
| TriangleStyle.TriangleWeightedDegree | greeksongs.py:86-90 | In the built triangle network, a node's weighted degree equals its degree, so its size is at least 2. |
| TriangleStyle.EdgeWidth | greeksongs.py:92 | An edge is at least half a unit wide. |
| TriangleStyle.TriangleEdgeWidth | greeksongs.py:91-92 | In the built triangle network, every edge is exactly half a unit wide. |
| Scenarios.CooccurrenceThreeSongs | greeksongs2.py:85-95 | The songs (A,B,C), (A,B,D) and (B,C,A) give A–B weight 6, A–C and B–C 4, A–D and B–D 2, and C–D none. |
| Scenarios.TriangleThreeSongs | greeksongs.py:79-82 | The same songs join A–B, B–C, A–C, A–D and B–D, but not C–D and not A with itself. |
| Scenarios.EmptyRange | greeksongs2.py:82 | A year range that holds no row's year gives both builders no node and no edge. |

## Left out

- Streamlit page setup, sidebar widgets and styling: user interface only.
- Loading the CSV over the network, and coercing or dropping the `Year` column. Rows are
  already-parsed records with an integer year. `greeksongs.py` keeps the year as a float; the
  model treats it as an integer.
- The songs-per-year chart, the top-20 contributors chart and the word clouds: presentation
  over library aggregation.
- The Louvain community detection: an external, randomised routine. Its partition is an
  input: any map from node names to natural numbers that covers the graph's nodes.
- The concrete contents of the Tableau and CSS4 colour tables: platform tables, modelled as
  abstract colour sequences.
- pyvis network construction, writing the HTML file and reading it back: rendering and file
  I/O. Only the colour, size and width values handed to pyvis are modelled, and an edge's
  width is a function of the finished graph rather than an entry of a rendered list.
- Splitting delimiter-joined singer fields: neither script does this.
- Names that are not strings: `str` of a number or another non-string cell is not modelled.
  A missing cell becomes `"nan"`, as its printed form.
- CooccurrenceStyle.TopClasses: it does not fix the order among communities with equal
  counts, because pandas does not specify it. Any tie order is accepted.
- CooccurrenceStyle.NodeColor: it states the colour at the rank only when the palette is at
  least as long as the ranking, as it is with ten colours and ten ranked communities. With a
  shorter palette it says only that some palette entry is used.
- Graphs.Graph.Degree: it states the neighbour count only for a node without a self-loop.
  With a self-loop networkx counts that edge twice, and the function does the same.
