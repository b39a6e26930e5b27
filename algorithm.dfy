/**
 * The Algorithm class of src/algorithm.h and src/algorithm.cc: it holds the
 * problem it was built with and constructs a Solution by the round-robin
 * nearest-neighbour scheme.  Its allClientsVisited is line for line that of
 * src/main.cc (MainFunctions.AllClientsVisited); findMinNotVisited reads the
 * matrix from the problem instead of a parameter.
 */
module Algorithms {
  import opened Problems
  import opened Solutions
  import opened Greedy
  import MainFunctions

  class Algorithm {
    /** The problem the pointer `problem_` refers to; no member changes it. */
    const problem: Problem

    /** Algorithm(Problem*): stores the problem. */
    constructor (problem: Problem)
      ensures this.problem == problem
    {
      this.problem := problem;
    }

    /**
     * findMinNotVisited on the problem's matrix: the eligible node nearest
     * to `current`, the lowest id on ties, with its distance; (-1, INT_MAX)
     * when no eligible node lies below INT_MAX.
     */
    method FindMinNotVisited(visited: seq<bool>, current: int) returns (minIndex: int, min: int)
      requires 0 <= current < |problem.d| && |visited| <= |problem.d[current]|
      ensures minIndex == -1 ==> min == INT_MAX && NoneBelow(problem.d[current], visited, current)
      ensures minIndex != -1 ==> IsNearest(problem.d[current], visited, current, minIndex)
      ensures minIndex != -1 ==> min == problem.d[current][minIndex]
    {
      var distanceMatrix := problem.d;
      minIndex, min := MainFunctions.FindMinNotVisited(distanceMatrix, visited, current);
    }

    /**
     * greedySolver: a fresh solution of `numVehicles` routes from
     * `initialNode` back to `initialNode`, built by turns, that together
     * visit every other node exactly once; each cached cost is the route's
     * length, and the solution's own cost is left at 0.
     */
    method GreedySolver(initialNode: int) returns (solution: Solution)
      requires IsSquare(problem.d) && BelowIntMax(problem.d) && 0 <= initialNode < |problem.d|
      requires problem.numVehicles >= 1 || (problem.numVehicles == 0 && |problem.d| == 1)
      ensures fresh(solution) && solution.Valid() && solution.cost == 0
      ensures |solution.routes| == problem.numVehicles
      ensures Closed(problem.d, initialNode, Nodes(solution.routes))
      ensures Covers(problem.d, initialNode, Nodes(solution.routes))
      ensures Balanced(Nodes(solution.routes)) && NearestOrder(problem.d, Nodes(solution.routes), initialNode, 1)
      ensures CostsMatch(problem.d, Nodes(solution.routes), CachedCosts(solution.routes))
    {
      solution := new Solution(problem.numVehicles);
      var routes := solution.GetRoutes();
      MainFunctions.FillRoutes(problem.d, initialNode, routes);
    }
  }
}
